/**
 What one polling round of the live indexer does, spelled on the tables and the answers:
 whom it looks at, which positions it stores, which events it adds and what they say
 (`ListingTells`, `ScanTells`, `RoundTells`).
 */
module LiveRounds {
  import opened ByteStrings
  import opened CoverageGaps
  import opened LiveModel
  import opened LiveRuns
  import opened LiveTables

  predicate Tracked(state: string) {
    || state == "Candidate" || state == "Newbie" || state == "Verified"
    || state == "Human" || state == "Suspended" || state == "Zombie"
  }

  lemma TrackedIff(state: string)
    ensures Tracked(state) <==> state in TRACKED_STATES
  {
  }

  // ------------------------------------------------------------------ what an event says

  ghost predicate IsDifference(delta: Amounts, before: Amounts, after: Amounts) {
    && before.balance + delta.balance == after.balance && before.stake + delta.stake == after.stake
    && before.replenished + delta.replenished == after.replenished && before.locked + delta.locked == after.locked
  }

  /** A credit if balance and stake grew together or more is locked, else a debit if either fell, else neither. */
  ghost predicate FlowTells(flow: Flow, delta: Amounts) {
    var up, down := delta.balance + delta.stake > 0 || delta.locked > 0, delta.balance + delta.stake < 0 || delta.locked < 0;
    (flow == Credit <==> up) && (flow == Debit <==> !up && down) && (flow == Neutral <==> !up && !down)
  }

  /** The event of a seeded address that was last seen like this. */
  ghost predicate NetChange(e: Event, epoch: nat, block: Block, address: string, was: Observation, seen: Observation) {
    && (was.amounts != seen.amounts || was.state != seen.state)
    && e.key == MarkedKey(Resync, epoch, block.height, address, GapNetChange, seen.inviterTx)
    && IsDifference(e.delta, was.amounts, seen.amounts) && FlowTells(e.flow, e.delta)
  }

  /** The event of a scanned address with this position: keyed by its amounts, or marked as a correction if the position
      is of the same height. */
  ghost predicate Change(e: Event, epoch: nat, block: Block, address: string, stored: Position, seen: Observation) {
    var was := stored.seen;
    && (was.amounts != seen.amounts || was.state != seen.state || was.delegatee != seen.delegatee)
    && IsDifference(e.delta, was.amounts, seen.amounts) && FlowTells(e.flow, e.delta)
    && (if stored.updatedHeight == block.height
        then e.key == MarkedKey(LiveDelta, epoch, block.height, address, SameHeightCorrection, seen.inviterTx)
        else
          && e.key.DeltaKey? && KindTells(e.key.kind, address, e.delta, was.state, seen.state, block)
          && e.key == DeltaKey(LiveDelta, epoch, block.height, address, e.key.kind, e.delta, seen.inviterTx))
  }

  lemma DifferenceIff(delta: Amounts, before: Amounts, after: Amounts)
    ensures IsDifference(delta, before, after) <==> delta == after.Minus(before)
    ensures after.Minus(before) != ZERO <==> before != after
  {
  }

  lemma FlowIff(flow: Flow, delta: Amounts)
    ensures FlowTells(flow, delta) <==> flow == FlowOf(delta)
  {
  }

  lemma NetChangeIff(w: World, epoch: nat, block: Block, i: Listed, e: Event)
    ensures SeedNote(w, epoch, block, i) == Some(e)
       <==> i.address in w.positions && NetChange(e, epoch, block, i.address, w.positions[i.address].seen, i.seen)
  {
    hide KindOf, FlowOf, FlowTells, IsDifference, Amounts.Minus;
    if i.address in w.positions {
      var was := w.positions[i.address].seen;
      DifferenceIff(e.delta, was.amounts, i.seen.amounts);
      FlowIff(e.flow, e.delta);
    }
  }

  lemma ChangeIff(w: World, epoch: nat, block: Block, seen: Observation, address: string, e: Event)
    ensures ScanNote(w, epoch, block, seen, address) == Some(e)
       <==> address in w.positions && Change(e, epoch, block, address, w.positions[address], seen)
  {
    hide KindOf, KindTells, FlowOf, FlowTells, IsDifference, Amounts.Minus;
    if address in w.positions {
      var was := w.positions[address].seen;
      DifferenceIff(e.delta, was.amounts, seen.amounts);
      FlowIff(e.flow, e.delta);
      if e.key.DeltaKey? {
        KindIff(e.key.kind, address, e.delta, was.state, seen.state, block);
      }
    }
  }

  // ----------------------------------------------------------------------- a listing

  /** An identity that is stored: it has an address, and a tracked state or locked stake. */
  predicate Kept(i: Listed) {
    i.address != "" && (Tracked(i.seen.state) || i.listedLocked > 0)
  }

  lemma KeptIff(i: Listed)
    ensures Kept(i) <==> IsPending(i)
  {
    TrackedIff(i.seen.state);
  }

  /** The last identity of these that is stored under the address. */
  ghost predicate LastKept(listed: seq<Listed>, address: string, k: int) {
    && 0 <= k < |listed| && Kept(listed[k]) && listed[k].address == address
    && forall j | k < j < |listed| :: !(Kept(listed[j]) && listed[j].address == address)
  }

  ghost predicate NoneKept(listed: seq<Listed>, address: string) {
    forall j | 0 <= j < |listed| :: !(Kept(listed[j]) && listed[j].address == address)
  }

  /** What was known of the address before identity `k`: what an earlier one said, or what was stored. */
  ghost predicate KnownBefore(w: World, listed: seq<Listed>, k: nat, was: Observation)
    requires k < |listed|
  {
    var address := listed[k].address;
    || (exists j :: LastKept(listed[..k], address, j) && was == listed[j].seen)
    || (NoneKept(listed[..k], address) && address in w.positions && was == w.positions[address].seen)
  }

  /** Identities that are stored have the last answer about them as their position; the other positions stay. */
  ghost predicate PositionsDone(w: World, epoch: nat, block: Block, listed: seq<Listed>, next: World) {
    && (forall a, k | LastKept(listed, a, k) :: a in next.positions && next.positions[a] == Position(epoch, listed[k].seen, block.height))
    && (forall a | NoneKept(listed, a) :: (a in next.positions <==> a in w.positions)
                                          && (a in w.positions ==> next.positions[a] == w.positions[a]))
  }

  /** Events stay as they are, and the new ones are those the listing brings under ids that were free. */
  ghost predicate EventsDone(w: World, epoch: nat, block: Block, listed: seq<Listed>, next: World) {
    && (forall key | key in w.events :: key in next.events && next.events[key] == w.events[key])
    && (forall key | key in next.events && key !in w.events ::
          next.events[key].key == key && ListingBrings(w, epoch, block, listed, next.events[key]))
    && (forall e | ListingBrings(w, epoch, block, listed, e) :: e.key in next.events)
  }

  ghost predicate ListingDone(w: World, epoch: nat, block: Block, listed: seq<Listed>, next: World) {
    PositionsDone(w, epoch, block, listed, next) && EventsDone(w, epoch, block, listed, next)
  }

  ghost predicate ListingBrings(w: World, epoch: nat, block: Block, listed: seq<Listed>, e: Event) {
    exists k: nat, was :: k < |listed| && Kept(listed[k]) && KnownBefore(w, listed, k, was)
                          && NetChange(e, epoch, block, listed[k].address, was, listed[k].seen)
  }

  lemma LastKeptSnoc(listed: seq<Listed>, i: Listed, address: string)
    ensures !(Kept(i) && i.address == address) ==>
              (forall k :: LastKept(listed + [i], address, k) <==> LastKept(listed, address, k))
              && (NoneKept(listed + [i], address) <==> NoneKept(listed, address))
    ensures Kept(i) && i.address == address ==>
              !NoneKept(listed + [i], address) && forall k :: LastKept(listed + [i], address, k) <==> k == |listed|
  {
    hide Kept;
    var all := listed + [i];
    assert all[|listed|] == i && forall j | 0 <= j < |listed| :: all[j] == listed[j];
  }

  lemma {:induction false} KeptHasLast(listed: seq<Listed>, address: string)
    ensures NoneKept(listed, address) || exists k :: LastKept(listed, address, k)
    decreases |listed|
  {
    hide Kept, LastKept, NoneKept;
    if listed == [] {
      NoneInNothing(address);
    } else {
      var front, i := listed[..|listed| - 1], listed[|listed| - 1];
      assert listed == front + [i];
      KeptHasLast(front, address);
      LastKeptSnoc(front, i, address);
      if Kept(i) && i.address == address {
        assert LastKept(listed, address, |front|);
      } else if k :| LastKept(front, address, k) {
        assert LastKept(listed, address, k);
      }
    }
  }

  lemma NoneInNothing(address: string)
    ensures NoneKept([], address)
  {
  }

  lemma BringsSnoc(w: World, epoch: nat, block: Block, listed: seq<Listed>, i: Listed, e: Event)
    ensures ListingBrings(w, epoch, block, listed + [i], e)
       <==> || ListingBrings(w, epoch, block, listed, e)
            || (Kept(i) && exists was :: KnownBefore(w, listed + [i], |listed|, was) && NetChange(e, epoch, block, i.address, was, i.seen))
  {
    hide Kept, NetChange, LastKept, NoneKept;
    var all := listed + [i];
    assert all[|listed|] == i && forall j | 0 <= j < |listed| :: all[j] == listed[j];
    forall k: nat, was | k < |listed| ensures KnownBefore(w, all, k, was) <==> KnownBefore(w, listed, k, was) {
      assert all[..k] == listed[..k];
      forall j | LastKept(all[..k], all[k].address, j) ensures 0 <= j < k {
        LastIsThere(all[..k], all[k].address, j);
      }
    }
    if k: nat, was :| k < |listed| && Kept(listed[k]) && KnownBefore(w, listed, k, was)
                      && NetChange(e, epoch, block, listed[k].address, was, listed[k].seen) {
      assert KnownBefore(w, all, k, was);
    }
  }

  lemma LastIsThere(listed: seq<Listed>, address: string, j: int)
    requires LastKept(listed, address, j)
    ensures 0 <= j < |listed|
  {
  }

  /** What is known before the last identity is what the state before it holds. */
  lemma KnownIsStored(w: World, epoch: nat, block: Block, listed: seq<Listed>, i: Listed, now: World, was: Observation)
    requires ListingDone(w, epoch, block, listed, now)
    ensures KnownBefore(w, listed + [i], |listed|, was) <==> i.address in now.positions && was == now.positions[i.address].seen
  {
    hide Kept, LastKept, NoneKept, ListingBrings;
    var all := listed + [i];
    assert all[..|listed|] == listed && all[|listed|] == i;
    KeptHasLast(listed, i.address);
    forall j | LastKept(listed, i.address, j) ensures 0 <= j < |listed| && all[j] == listed[j] && !NoneKept(listed, i.address) {
      LastIsThere(listed, i.address, j);
      LastIsKept(listed, i.address, j);
    }
  }

  lemma LastIsKept(listed: seq<Listed>, address: string, j: int)
    requires LastKept(listed, address, j)
    ensures !NoneKept(listed, address)
  {
  }

  lemma PositionsStep(w: World, epoch: nat, block: Block, listed: seq<Listed>, i: Listed, now: World)
    requires PositionsDone(w, epoch, block, listed, now)
    ensures PositionsDone(w, epoch, block, listed + [i], if Kept(i) then SeedOne(now, epoch, block, i) else now)
  {
    hide Kept, LastKept, NoneKept, SeedOne, SeedNote, Accounts;
    var all, next := listed + [i], if Kept(i) then SeedOne(now, epoch, block, i) else now;
    SeedNoted(now, epoch, block, i);
    assert all[|listed|] == i;
    forall a, k | LastKept(all, a, k) ensures 0 <= k < |all| {
      LastIsThere(all, a, k);
    }
    forall a, k | LastKept(all, a, k)
      ensures a in next.positions && next.positions[a] == Position(epoch, all[k].seen, block.height)
    {
      LastKeptSnoc(listed, i, a);
      if !(Kept(i) && i.address == a) {
        assert LastKept(listed, a, k);
        LastIsThere(listed, a, k);
        assert all[k] == listed[k];
      }
    }
    forall a | NoneKept(all, a)
      ensures (a in next.positions <==> a in w.positions) && (a in w.positions ==> next.positions[a] == w.positions[a])
    {
      LastKeptSnoc(listed, i, a);
    }
  }

  /** What storing does to the events. */
  lemma StoreEvents(w: World, address: string, p: Position, note: Option<Event>)
    ensures var next := Store(w, address, p, note).events;
            && (forall key :: key in next <==> key in w.events || (note.Some? && note.value.key == key))
            && (forall key | key in w.events :: next[key] == w.events[key])
            && (forall key | key in next && key !in w.events :: note == Some(next[key]))
  {
  }

  lemma EventsStep(w: World, epoch: nat, block: Block, listed: seq<Listed>, i: Listed, now: World)
    requires ListingDone(w, epoch, block, listed, now)
    ensures EventsDone(w, epoch, block, listed + [i], if Kept(i) then SeedOne(now, epoch, block, i) else now)
  {
    hide Kept, ListingBrings, KnownBefore, SeedOne, SeedNote, NetChange, Accounts, Store, PositionsDone;
    var all := listed + [i];
    SeedNoted(now, epoch, block, i);
    StoreEvents(now, i.address, Position(epoch, i.seen, block.height), SeedNote(now, epoch, block, i));
    forall e
      ensures ListingBrings(w, epoch, block, all, e)
         <==> ListingBrings(w, epoch, block, listed, e) || (Kept(i) && SeedNote(now, epoch, block, i) == Some(e))
    {
      BringsSnoc(w, epoch, block, listed, i, e);
      NetChangeIff(now, epoch, block, i, e);
      forall was ensures KnownBefore(w, all, |listed|, was) <==> i.address in now.positions && was == now.positions[i.address].seen {
        KnownIsStored(w, epoch, block, listed, i, now, was);
      }
    }
  }

  lemma ListingStep(w: World, epoch: nat, block: Block, listed: seq<Listed>, i: Listed, now: World)
    requires ListingDone(w, epoch, block, listed, now)
    ensures ListingDone(w, epoch, block, listed + [i], if Kept(i) then SeedOne(now, epoch, block, i) else now)
  {
    hide Kept, SeedOne, PositionsDone, EventsDone;
    PositionsStep(w, epoch, block, listed, i, now);
    EventsStep(w, epoch, block, listed, i, now);
  }

  /** What seeding does with the answer to `dna_identities`, as far as it is dealt with. */
  lemma {:induction false} ListingTells(w: World, epoch: nat, block: Block, listed: seq<Listed>)
    ensures ListingDone(w, epoch, block, listed, SeedAll(w, epoch, block, Pending(listed)))
    decreases |listed|
  {
    hide ListingDone, SeedAll, SeedOne, Pending, Kept, IsPending;
    if listed == [] {
      PendingEmpty();
      SeedAllEmpty(w, epoch, block);
      NothingListed(w, epoch, block);
    } else {
      var front, i := listed[..|listed| - 1], listed[|listed| - 1];
      assert listed == front + [i];
      ListingTells(w, epoch, block, front);
      ListingStep(w, epoch, block, front, i, SeedAll(w, epoch, block, Pending(front)));
      KeptIff(i);
      PendingSnoc(front, i);
      if IsPending(i) {
        SeedAllSnoc(w, epoch, block, Pending(front), i);
      }
    }
  }

  lemma NothingListed(w: World, epoch: nat, block: Block)
    ensures ListingDone(w, epoch, block, [], w)
  {
  }

  // -------------------------------------------------------------------------- a scan

  /** The addresses of a live scan: the coinbase, and those stored with a tracked state or locked stake. */
  ghost predicate LooksAt(w: World, block: Block, address: string) {
    && address != ""
    && (|| address == block.coinbase
        || (address in w.positions
            && (Tracked(w.positions[address].seen.state) || w.positions[address].seen.amounts.locked > 0)))
  }

  lemma LooksAtIff(w: World, block: Block, address: string)
    ensures LooksAt(w, block, address) <==> address in Addresses(w.positions, block)
  {
    if address in w.positions {
      TrackedIff(w.positions[address].seen.state);
    }
  }

  /** Addresses with an answer have it as their position; the other positions stay. */
  ghost predicate AnswersStored(
    w: World, epoch: nat, block: Block, answers: map<string, Observation>, addresses: iset<string>, next: World)
  {
    && (forall a | a in addresses && a in answers ::
          a in next.positions && next.positions[a] == Position(epoch, answers[a], block.height))
    && (forall a | !(a in addresses && a in answers) ::
          (a in next.positions <==> a in w.positions) && (a in w.positions ==> next.positions[a] == w.positions[a]))
  }

  /** Events stay as they are, and the new ones are those of the changes whose ids were free. */
  ghost predicate ChangesNoted(
    w: World, epoch: nat, block: Block, answers: map<string, Observation>, addresses: iset<string>, next: World)
  {
    && (forall key | key in w.events :: key in next.events && next.events[key] == w.events[key])
    && (forall key | key in next.events && key !in w.events ::
          next.events[key].key == key && ScanBrings(w, epoch, block, answers, addresses, next.events[key]))
    && (forall e | ScanBrings(w, epoch, block, answers, addresses, e) :: e.key in next.events)
  }

  ghost predicate ScanDone(
    w: World, epoch: nat, block: Block, answers: map<string, Observation>, addresses: iset<string>, next: World)
  {
    AnswersStored(w, epoch, block, answers, addresses, next) && ChangesNoted(w, epoch, block, answers, addresses, next)
  }

  ghost predicate ScanBrings(
    w: World, epoch: nat, block: Block, answers: map<string, Observation>, addresses: iset<string>, e: Event)
  {
    exists a :: a in addresses && a in answers && a in w.positions && Change(e, epoch, block, a, w.positions[a], answers[a])
  }

  lemma AnswersStep(
      w: World, epoch: nat, block: Block, answers: map<string, Observation>, done: iset<string>, address: string, now: World)
    requires AnswersStored(w, epoch, block, answers, done, now)
    ensures AnswersStored(w, epoch, block, answers, done + iset{address}, ScanOne(now, epoch, block, answers, address))
  {
    hide ScanOne, ScanNote, Accounts, Store;
    if address in answers {
      ScanNoted(now, epoch, block, answers, address);
      var p, note := Position(epoch, answers[address], block.height), ScanNote(now, epoch, block, answers[address], address);
      StorePositions(now, address, p, note);
    } else {
      NoAnswer(now, epoch, block, answers, address);
    }
  }

  lemma ChangesStep(
      w: World, epoch: nat, block: Block, answers: map<string, Observation>, done: iset<string>, address: string, now: World)
    requires ChangesNoted(w, epoch, block, answers, done, now)
    requires address in now.positions <==> address in w.positions
    requires address in w.positions ==> now.positions[address] == w.positions[address]
    ensures ChangesNoted(w, epoch, block, answers, done + iset{address}, ScanOne(now, epoch, block, answers, address))
  {
    hide ScanOne, ScanNote, Change, Accounts, ScanBrings, Store;
    var all := done + iset{address};
    forall e
      ensures ScanBrings(w, epoch, block, answers, all, e)
         <==> || ScanBrings(w, epoch, block, answers, done, e)
              || (address in answers && ScanNote(now, epoch, block, answers[address], address) == Some(e))
    {
      MoreBrings(w, epoch, block, answers, done, address, e);
      if address in answers {
        ChangeIff(now, epoch, block, answers[address], address, e);
      }
    }
    if address in answers {
      ScanNoted(now, epoch, block, answers, address);
      var p, note := Position(epoch, answers[address], block.height), ScanNote(now, epoch, block, answers[address], address);
      StoreEvents(now, address, p, note);
    } else {
      NoAnswer(now, epoch, block, answers, address);
    }
  }

  lemma ScanStep(
      w: World, epoch: nat, block: Block, answers: map<string, Observation>, done: iset<string>, address: string, now: World)
    requires ScanDone(w, epoch, block, answers, done, now) && address !in done
    ensures ScanDone(w, epoch, block, answers, done + iset{address}, ScanOne(now, epoch, block, answers, address))
  {
    hide ScanOne, ChangesNoted;
    AnswersStep(w, epoch, block, answers, done, address, now);
    ChangesStep(w, epoch, block, answers, done, address, now);
  }

  lemma StorePositions(w: World, address: string, p: Position, note: Option<Event>)
    ensures Store(w, address, p, note).positions == w.positions[address := p]
  {
  }

  lemma NoAnswer(w: World, epoch: nat, block: Block, answers: map<string, Observation>, address: string)
    requires address !in answers
    ensures ScanOne(w, epoch, block, answers, address) == w
  {
  }

  lemma MoreBrings(
      w: World, epoch: nat, block: Block, answers: map<string, Observation>, done: iset<string>, address: string, e: Event)
    ensures ScanBrings(w, epoch, block, answers, done + iset{address}, e)
       <==> || ScanBrings(w, epoch, block, answers, done, e)
            || (address in answers && address in w.positions && Change(e, epoch, block, address, w.positions[address], answers[address]))
  {
    hide Change;
  }

  /** What the scan loop does, in whatever order it takes the addresses. */
  lemma {:induction false} ScanTells(w: World, epoch: nat, block: Block, answers: map<string, Observation>, order: seq<string>)
    requires Distinct(order)
    ensures ScanDone(w, epoch, block, answers, (iset a | a in order), ScanAll(w, epoch, block, answers, order))
    decreases |order|
  {
    hide ScanDone, ScanOne;
    if order == [] {
      NothingScanned(w, epoch, block, answers);
      var none := iset a | a in order;
      assert none == iset{};
    } else {
      var front, address := order[..|order| - 1], order[|order| - 1];
      ScanTells(w, epoch, block, answers, front);
      var done, all := (iset a | a in front), (iset a | a in order);
      assert order == front + [address];
      assert all == done + iset{address};
      ScanStep(w, epoch, block, answers, done, address, ScanAll(w, epoch, block, answers, front));
    }
  }

  lemma NothingScanned(w: World, epoch: nat, block: Block, answers: map<string, Observation>)
    ensures ScanDone(w, epoch, block, answers, iset{}, w)
  {
  }

  // -------------------------------------------------------------------------- a round

  /** The state when the epoch has been seeded, which it is once. */
  ghost predicate Ready(w: World, s: Scan, ready: World) {
    if s.epoch in w.seeded then ready == w
    else
      && s.listing.Stored? && ListingDone(w, s.epoch, s.block, s.listing.listed, ready)
      && ready.seeded == w.seeded + {s.epoch} && ready.cursor == w.cursor && ready.gaps == w.gaps
  }

  ghost predicate SameTables(w: World, next: World) {
    w.positions == next.positions && w.events == next.events && w.seeded == next.seeded
  }

  /** The heights between the cursor and the head are on record as a gap, if there are any and the cursor was set. */
  ghost predicate GapTells(ready: World, s: Scan, next: World) {
    if ready.cursor > 0 && s.block.height - ready.cursor > 1
    then Recorded(ready.gaps, ready.cursor + 1, s.block.height - 1, GAP_REASON, next.gaps)
    else next.gaps == ready.gaps
  }

  lemma SeededIsReady(w: World, s: Scan)
    requires s.epoch in w.seeded || s.listing.Stored?
    ensures Ready(w, s, Seeded(w, s))
  {
    hide SeedAll, Pending, ListingBrings, LastKept, NoneKept;
    if s.epoch !in w.seeded {
      ListingTells(w, s.epoch, s.block, s.listing.listed);
      SeedElsewhere(w, s.epoch, s.block, Pending(s.listing.listed));
    }
  }

  /** Every round: without an answer about the identities a new epoch is put off; an answer that is stored in part is
      dealt with that far; then, if the head is above the cursor, the gap is noted, the answers are compared with what
      is stored, and only a read in full moves the cursor. */
  lemma RoundTells(w: World, s: Scan, next: World)
    requires Once(w, s, next)
    ensures s.epoch !in w.seeded && s.listing.NotListed? ==> next == w
    ensures s.epoch !in w.seeded && s.listing.StoredInPart? ==>
              && ListingDone(w, s.epoch, s.block, s.listing.listed, next)
              && next.seeded == w.seeded && next.cursor == w.cursor && next.gaps == w.gaps
    ensures s.epoch in w.seeded || s.listing.Stored? ==>
              exists ready ::
                && Ready(w, s, ready)
                && (s.block.height <= ready.cursor ==> next == ready)
                && (s.block.height > ready.cursor ==>
                      && GapTells(ready, s, next) && next.seeded == ready.seeded
                      && next.cursor == (if s.reading.Read? then s.block.height else ready.cursor)
                      && match s.reading
                         case Deferred => SameTables(ready, next)
                         case Read(answers) =>
                           ScanDone(ready, s.epoch, s.block, answers, (iset a | LooksAt(ready, s.block, a)), next)
                         case ReadInPart(answers, reached) =>
                           ScanDone(ready, s.epoch, s.block, answers, (iset a | LooksAt(ready, s.block, a) && a in reached), next))
  {
    hide SeedAll, Pending, ScanAll, Recorded, ListingDone, ScanDone, Ready, LooksAt, Addresses;
    if s.epoch !in w.seeded && s.listing.StoredInPart? {
      ListingTells(w, s.epoch, s.block, s.listing.listed);
      SeedElsewhere(w, s.epoch, s.block, Pending(s.listing.listed));
    }
    if s.epoch in w.seeded || s.listing.Stored? {
      SeededIsReady(w, s);
      if Seeded(w, s).cursor < s.block.height {
        ScanInRound(w, s, next);
      }
    }
  }

  lemma ScanInRound(w: World, s: Scan, next: World)
    requires Once(w, s, next) && (s.epoch in w.seeded || s.listing.Stored?) && Seeded(w, s).cursor < s.block.height
    ensures var ready := Seeded(w, s);
            && GapTells(ready, s, next) && next.seeded == ready.seeded
            && next.cursor == (if s.reading.Read? then s.block.height else ready.cursor)
            && match s.reading
               case Deferred => SameTables(ready, next)
               case Read(answers) => ScanDone(ready, s.epoch, s.block, answers, (iset a | LooksAt(ready, s.block, a)), next)
               case ReadInPart(answers, reached) =>
                 ScanDone(ready, s.epoch, s.block, answers, (iset a | LooksAt(ready, s.block, a) && a in reached), next)
  {
    hide SeedAll, Pending, ScanAll, Recorded, ScanDone, LooksAt, Addresses, Seeded;
    var ready := Seeded(w, s);
    var gaps, order :| GapNoted(ready.gaps, ready.cursor, s.block.height, gaps) && LiveScan(ready.(gaps := gaps), s, order, next);
    forall a ensures LooksAt(ready, s.block, a) <==> a in Addresses(ready.positions, s.block) {
      LooksAtIff(ready, s.block, a);
    }
    if !s.reading.Deferred? {
      var noted, answers := ready.(gaps := gaps), s.reading.answers;
      var after := ScanAll(noted, s.epoch, s.block, answers, order);
      ScanTells(noted, s.epoch, s.block, answers, order);
      ScanElsewhere(noted, s.epoch, s.block, answers, order);
      var scanned := iset a | a in order;
      ScanDoneAlike(noted, s.epoch, s.block, answers, scanned, after, ready, next);
      if s.reading.Read? {
        assert scanned == iset a | LooksAt(ready, s.block, a);
      } else {
        var reached := s.reading.reached;
        assert scanned == iset a | LooksAt(ready, s.block, a) && a in reached;
      }
    }
  }

  lemma ScanDoneAlike(
      w: World, epoch: nat, block: Block, answers: map<string, Observation>, addresses: iset<string>, next: World, w': World, next': World)
    requires ScanDone(w, epoch, block, answers, addresses, next)
    requires w.positions == w'.positions && w.events == w'.events && next.positions == next'.positions && next.events == next'.events
    ensures ScanDone(w', epoch, block, answers, addresses, next')
  {
    hide Change;
    assert forall e :: ScanBrings(w, epoch, block, answers, addresses, e) <==> ScanBrings(w', epoch, block, answers, addresses, e);
  }

  lemma {:induction false} ScanElsewhere(w: World, epoch: nat, block: Block, answers: map<string, Observation>, order: seq<string>)
    ensures var next := ScanAll(w, epoch, block, answers, order);
            next.gaps == w.gaps && next.cursor == w.cursor && next.seeded == w.seeded
    decreases |order|
  {
    hide KindOf, FlowOf;
    if order != [] {
      ScanElsewhere(w, epoch, block, answers, order[..|order| - 1]);
    }
  }
}
