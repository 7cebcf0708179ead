/**
 What the live indexer loses. An event is ignored when its id is taken, and then its
 difference is missing from the records. Which differences those are can be read off
 the tables and the answers beforehand: for one address (`SeedOneLoses`,
 `ScanOneLoses`), for a whole listing (`ListingLosses`), a live scan (`ScanLosses`)
 and a round (`RoundLosses`). So for every run it is known exactly when an address is
 conserved (`ConservedIff`), and there are runs in which it is not: an answer that
 lists an address twice (`ListedTwiceIsNotConserved`), an epoch seeded again after an
 error (`SeededAgainIsNotConserved`), a scan that stopped (`StoppedScanIsNotConserved`).
 */
module LiveLosses {
  import opened ByteStrings
  import opened LiveModel
  import opened LiveRuns

  // ------------------------------------------------------------------ one address

  /** The id of a resync event. */
  function ResyncKey(epoch: nat, height: nat, address: string, tx: string): EventKey {
    MarkedKey(Resync, epoch, height, address, GapNetChange, tx)
  }

  /** The amounts changed, and the id of the event about it is taken. */
  predicate SeedLoses(w: World, epoch: nat, block: Block, i: Listed) {
    && i.address in w.positions && i.seen.amounts != w.positions[i.address].seen.amounts
    && ResyncKey(epoch, block.height, i.address, i.seen.inviterTx) in w.events
  }

  /** The id of the event about a changed address of a live scan. */
  function ScanKey(stored: Position, epoch: nat, block: Block, seen: Observation, address: string): EventKey {
    var delta := seen.amounts.Minus(stored.seen.amounts);
    if stored.updatedHeight == block.height then MarkedKey(LiveDelta, epoch, block.height, address, SameHeightCorrection, seen.inviterTx)
    else DeltaKey(LiveDelta, epoch, block.height, address, KindOf(address, delta, stored.seen.state, seen.state, block), delta, seen.inviterTx)
  }

  predicate ScanLoses(w: World, epoch: nat, block: Block, answers: map<string, Observation>, address: string) {
    && address in answers && address in w.positions
    && answers[address].amounts != w.positions[address].seen.amounts
    && ScanKey(w.positions[address], epoch, block, answers[address], address) in w.events
  }

  lemma MinusIsZero(a: Amounts, b: Amounts)
    ensures a.Minus(b) == ZERO <==> a == b
    ensures a.Plus(ZERO) == a && ZERO.Plus(a) == a
  {
  }

  lemma LostGrows(a: Amounts, d: Amounts)
    ensures a.Plus(d) == a <==> d == ZERO
  {
  }

  /** What storing a position does to the lost amounts. */
  lemma StoreLoses(w: World, address: string, p: Position, note: Option<Event>, a: string)
    ensures Lost(Store(w, address, p, note), a)
         == if a == address && note.Some? && note.value.key in w.events then Lost(w, a).Plus(note.value.delta) else Lost(w, a)
  {
    hide Amounts.Plus;
  }

  function SeedLoss(w: World, epoch: nat, block: Block, i: Listed): Amounts {
    if SeedLoses(w, epoch, block, i) then i.seen.amounts.Minus(w.positions[i.address].seen.amounts) else ZERO
  }

  lemma SeedNoteIs(w: World, epoch: nat, block: Block, i: Listed)
    ensures var note := SeedNote(w, epoch, block, i);
            && (note.Some? <==> i.address in w.positions && Differs(Some(w.positions[i.address].seen), i.seen))
            && (note.Some? ==>
                  && note.value.key == ResyncKey(epoch, block.height, i.address, i.seen.inviterTx)
                  && note.value.delta == i.seen.amounts.Minus(w.positions[i.address].seen.amounts))
  {
    hide KindOf, FlowOf;
    if i.address in w.positions {
      MinusIsZero(i.seen.amounts, w.positions[i.address].seen.amounts);
    }
  }

  /** Seeding an address loses a difference exactly when the amounts changed and the id is taken; the loss is that
      difference, and no other address loses anything. */
  lemma SeedOneLoses(w: World, epoch: nat, block: Block, i: Listed)
    ensures Lost(SeedOne(w, epoch, block, i), i.address) == Lost(w, i.address) <==> !SeedLoses(w, epoch, block, i)
    ensures Lost(SeedOne(w, epoch, block, i), i.address) == Lost(w, i.address).Plus(SeedLoss(w, epoch, block, i))
    ensures forall a | a != i.address :: Lost(SeedOne(w, epoch, block, i), a) == Lost(w, a)
  {
    hide SeedOne, SeedNote, Store, Accounts, Amounts.Plus, Amounts.Minus, Lost;
    SeedNoted(w, epoch, block, i);
    SeedNoteIs(w, epoch, block, i);
    var note := SeedNote(w, epoch, block, i);
    forall a ensures Lost(SeedOne(w, epoch, block, i), a)
                  == if a == i.address && note.Some? && note.value.key in w.events then Lost(w, a).Plus(note.value.delta) else Lost(w, a) {
      StoreLoses(w, i.address, Position(epoch, i.seen, block.height), note, a);
    }
    MinusIsZero(Lost(w, i.address), Lost(w, i.address));
    if i.address in w.positions {
      MinusIsZero(i.seen.amounts, w.positions[i.address].seen.amounts);
      LostGrows(Lost(w, i.address), i.seen.amounts.Minus(w.positions[i.address].seen.amounts));
    }
  }

  function ScanLoss(w: World, epoch: nat, block: Block, answers: map<string, Observation>, address: string): Amounts {
    if ScanLoses(w, epoch, block, answers, address) then answers[address].amounts.Minus(w.positions[address].seen.amounts) else ZERO
  }

  lemma ScanNoteIs(w: World, epoch: nat, block: Block, seen: Observation, address: string)
    ensures var note := ScanNote(w, epoch, block, seen, address);
            && (address in w.positions && seen.amounts != w.positions[address].seen.amounts ==> note.Some?)
            && (note.Some? ==>
                  && address in w.positions && note.value.key == ScanKey(w.positions[address], epoch, block, seen, address)
                  && note.value.delta == seen.amounts.Minus(w.positions[address].seen.amounts))
  {
    hide KindOf, FlowOf;
    if address in w.positions {
      MinusIsZero(seen.amounts, w.positions[address].seen.amounts);
    }
  }

  /** The same for one address of a live scan. */
  lemma ScanOneLoses(w: World, epoch: nat, block: Block, answers: map<string, Observation>, address: string)
    ensures Lost(ScanOne(w, epoch, block, answers, address), address) == Lost(w, address)
       <==> !ScanLoses(w, epoch, block, answers, address)
    ensures Lost(ScanOne(w, epoch, block, answers, address), address)
         == Lost(w, address).Plus(ScanLoss(w, epoch, block, answers, address))
    ensures forall a | a != address :: Lost(ScanOne(w, epoch, block, answers, address), a) == Lost(w, a)
  {
    hide ScanNote, ScanKey, Store, Accounts, Amounts.Plus, Amounts.Minus, Lost;
    MinusIsZero(Lost(w, address), Lost(w, address));
    if address in answers {
      var seen := answers[address];
      ScanNoted(w, epoch, block, answers, address);
      hide ScanOne;
      ScanNoteIs(w, epoch, block, seen, address);
      var note := ScanNote(w, epoch, block, seen, address);
      forall a ensures Lost(ScanOne(w, epoch, block, answers, address), a)
                    == if a == address && note.Some? && note.value.key in w.events then Lost(w, a).Plus(note.value.delta) else Lost(w, a) {
        StoreLoses(w, address, Position(epoch, seen, block.height), note, a);
      }
      if address in w.positions {
        MinusIsZero(seen.amounts, w.positions[address].seen.amounts);
        LostGrows(Lost(w, address), seen.amounts.Minus(w.positions[address].seen.amounts));
      }
    }
  }

  // -------------------------------------------------------------------- a listing

  /** What is known of an address after these entries of a listing. */
  function LastSeen(w: World, pending: seq<Listed>, address: string): Option<Observation> {
    if pending == [] then if address in w.positions then Some(w.positions[address].seen) else None
    else if pending[|pending| - 1].address == address then Some(pending[|pending| - 1].seen)
    else LastSeen(w, pending[..|pending| - 1], address)
  }

  predicate Differs(was: Option<Observation>, seen: Observation) {
    was.Some? && (seen.amounts != was.value.amounts || seen.state != was.value.state)
  }

  /** After these entries of a listing the id of the address's resync event is taken: it was before, or an entry with
      the same inviter differed from what was known. */
  predicate Taken(w: World, epoch: nat, block: Block, pending: seq<Listed>, address: string, tx: string) {
    if pending == [] then ResyncKey(epoch, block.height, address, tx) in w.events
    else
      var front, last := pending[..|pending| - 1], pending[|pending| - 1];
      || Taken(w, epoch, block, front, address, tx)
      || (last.address == address && last.seen.inviterTx == tx && Differs(LastSeen(w, front, address), last.seen))
  }

  /** The differences a listing loses for an address, read off the tables and the listing. */
  function ListingLoss(w: World, epoch: nat, block: Block, pending: seq<Listed>, address: string): Amounts {
    if pending == [] then ZERO
    else
      var front, last := pending[..|pending| - 1], pending[|pending| - 1];
      var was := LastSeen(w, front, address);
      ListingLoss(w, epoch, block, front, address).Plus(
        if last.address == address && was.Some? && Taken(w, epoch, block, front, address, last.seen.inviterTx)
        then last.seen.amounts.Minus(was.value.amounts) else ZERO)
  }

  /** The position and the resync ids of one address after one entry. */
  lemma SeedOneStores(w: World, epoch: nat, block: Block, i: Listed, address: string, tx: string)
    ensures var next := SeedOne(w, epoch, block, i);
            && (address in next.positions <==> address in w.positions || address == i.address)
            && (address in next.positions ==>
                  next.positions[address].seen == if address == i.address then i.seen else w.positions[address].seen)
            && (ResyncKey(epoch, block.height, address, tx) in next.events <==>
                  || ResyncKey(epoch, block.height, address, tx) in w.events
                  || (address == i.address && tx == i.seen.inviterTx && address in w.positions && Differs(Some(w.positions[address].seen), i.seen)))
  {
    hide SeedOne, SeedNote, Accounts, Amounts.Plus, Amounts.Minus, Lost;
    SeedNoted(w, epoch, block, i);
    SeedNoteIs(w, epoch, block, i);
  }

  lemma {:induction false} ListingStores(w: World, epoch: nat, block: Block, pending: seq<Listed>, address: string, tx: string)
    ensures var next := SeedAll(w, epoch, block, pending);
            && LastSeen(w, pending, address) == (if address in next.positions then Some(next.positions[address].seen) else None)
            && (ResyncKey(epoch, block.height, address, tx) in next.events <==> Taken(w, epoch, block, pending, address, tx))
    decreases |pending|
  {
    hide SeedOne, ResyncKey;
    if pending != [] {
      var front, last := pending[..|pending| - 1], pending[|pending| - 1];
      ListingStores(w, epoch, block, front, address, tx);
      SeedOneStores(SeedAll(w, epoch, block, front), epoch, block, last, address, tx);
    }
  }

  /** A listing loses exactly the differences `ListingLoss` says, entries that repeat an address included. */
  lemma {:induction false} ListingLosses(w: World, epoch: nat, block: Block, pending: seq<Listed>, address: string)
    ensures Lost(SeedAll(w, epoch, block, pending), address)
         == Lost(w, address).Plus(ListingLoss(w, epoch, block, pending, address))
    decreases |pending|
  {
    hide SeedOne, Lost, Amounts.Plus, Amounts.Minus;
    PlusIsAssociative(Lost(w, address), ZERO, ZERO);
    if pending != [] {
      var front, last := pending[..|pending| - 1], pending[|pending| - 1];
      ListingLosses(w, epoch, block, front, address);
      var now := SeedAll(w, epoch, block, front);
      SeedOneLoses(now, epoch, block, last);
      var loss := if last.address == address then SeedLoss(now, epoch, block, last) else ZERO;
      EntryLoss(w, epoch, block, pending, address);
      hide ListingLoss, SeedLoss;
      PlusIsAssociative(Lost(w, address), ListingLoss(w, epoch, block, front, address), loss);
      PlusIsAssociative(Lost(now, address), ZERO, ZERO);
    }
  }

  /** The last entry of a listing, in the tables it finds. */
  lemma EntryLoss(w: World, epoch: nat, block: Block, pending: seq<Listed>, address: string)
    requires pending != []
    ensures var front, last := pending[..|pending| - 1], pending[|pending| - 1];
            var loss := if last.address == address then SeedLoss(SeedAll(w, epoch, block, front), epoch, block, last) else ZERO;
            ListingLoss(w, epoch, block, pending, address) == ListingLoss(w, epoch, block, front, address).Plus(loss)
  {
    hide SeedAll, LastSeen, Taken, ResyncKey, Amounts.Plus, Amounts.Minus;
    var front, last := pending[..|pending| - 1], pending[|pending| - 1];
    var now := SeedAll(w, epoch, block, front);
    ListingStores(w, epoch, block, front, address, last.seen.inviterTx);
    if last.address == address && address in now.positions {
      MinusIsZero(last.seen.amounts, now.positions[address].seen.amounts);
    }
  }

  lemma PlusIsAssociative(a: Amounts, b: Amounts, c: Amounts)
    ensures a.Plus(b).Plus(c) == a.Plus(b.Plus(c)) && a.Plus(ZERO) == a
  {
  }

  // ------------------------------------------------------------------ a live scan

  /** One address of a scan leaves everything about the others alone. */
  lemma ScanOneElsewhere(w: World, epoch: nat, block: Block, answers: map<string, Observation>, address: string, a: string)
    requires a != address
    ensures var next := ScanOne(w, epoch, block, answers, address);
            && (a in next.positions <==> a in w.positions) && (a in w.positions ==> next.positions[a] == w.positions[a])
            && (forall k: EventKey | k.address == a :: k in next.events <==> k in w.events)
  {
    hide ScanNote, Accounts, Lost, Amounts.Plus, Amounts.Minus, KindOf, FlowOf;
    if address in answers {
      ScanNoted(w, epoch, block, answers, address);
      ScanNoteKey(w, epoch, block, answers[address], address);
      hide ScanOne;
    }
  }

  lemma {:induction false} ScanElsewhere(w: World, epoch: nat, block: Block, answers: map<string, Observation>, order: seq<string>, a: string)
    requires a !in order
    ensures var next := ScanAll(w, epoch, block, answers, order);
            && (a in next.positions <==> a in w.positions) && (a in w.positions ==> next.positions[a] == w.positions[a])
            && (forall k: EventKey | k.address == a :: k in next.events <==> k in w.events)
            && Lost(next, a) == Lost(w, a)
    decreases |order|
  {
    hide ScanOne, Lost;
    if order != [] {
      var front, last := order[..|order| - 1], order[|order| - 1];
      ScanElsewhere(w, epoch, block, answers, front, a);
      ScanOneElsewhere(ScanAll(w, epoch, block, answers, front), epoch, block, answers, last, a);
      ScanOneLoses(ScanAll(w, epoch, block, answers, front), epoch, block, answers, last);
    }
  }

  lemma SameScanLoss(w: World, now: World, epoch: nat, block: Block, answers: map<string, Observation>, a: string)
    requires (a in now.positions <==> a in w.positions) && (a in w.positions ==> now.positions[a] == w.positions[a])
    requires forall k: EventKey | k.address == a :: k in now.events <==> k in w.events
    ensures ScanLoss(now, epoch, block, answers, a) == ScanLoss(w, epoch, block, answers, a)
  {
    hide KindOf, Amounts.Minus;
  }

  /** A live scan loses, for each address it deals with, exactly what that address loses in the tables it starts from. */
  lemma {:induction false} ScanLosses(w: World, epoch: nat, block: Block, answers: map<string, Observation>, order: seq<string>, a: string)
    requires Distinct(order)
    ensures Lost(ScanAll(w, epoch, block, answers, order), a)
         == Lost(w, a).Plus(if a in order then ScanLoss(w, epoch, block, answers, a) else ZERO)
    decreases |order|
  {
    hide ScanOne, Lost, ScanLoss;
    PlusIsAssociative(Lost(w, a), ZERO, ZERO);
    if order != [] {
      var front, last := order[..|order| - 1], order[|order| - 1];
      assert order == front + [last];
      ScanLosses(w, epoch, block, answers, front, a);
      var now := ScanAll(w, epoch, block, answers, front);
      ScanOneLoses(now, epoch, block, answers, last);
      if last == a {
        assert a !in front;
        ScanElsewhere(w, epoch, block, answers, front, a);
        SameScanLoss(w, now, epoch, block, answers, a);
      }
    }
  }

  // ---------------------------------------------------------------- rounds and runs

  /** The addresses a round reads from these tables. */
  function ReadBy(w: World, s: Scan): set<string> {
    match s.reading
    case Deferred => {}
    case Read(_) => Addresses(w.positions, s.block)
    case ReadInPart(_, reached) => Addresses(w.positions, s.block) * reached
  }

  function ReadLoss(w: World, s: Scan, a: string): Amounts {
    if a in ReadBy(w, s) then ScanLoss(w, s.epoch, s.block, s.reading.answers, a) else ZERO
  }

  /** What a round loses for an address, read off the tables it finds and the answers it gets. */
  function RoundLoss(w: World, s: Scan, a: string): Amounts {
    if s.epoch !in w.seeded && s.listing.NotListed? then ZERO
    else if s.epoch !in w.seeded && s.listing.StoredInPart? then ListingLoss(w, s.epoch, s.block, Pending(s.listing.listed), a)
    else
      var ready := Seeded(w, s);
      (if s.epoch in w.seeded then ZERO else ListingLoss(w, s.epoch, s.block, Pending(s.listing.listed), a)).Plus(
        if ready.cursor < s.block.height then ReadLoss(ready, s, a) else ZERO)
  }

  lemma LostIgnores(w: World, next: World, a: string)
    requires next.lost == w.lost
    ensures Lost(next, a) == Lost(w, a)
  {
  }

  lemma LiveScanLosses(w: World, gaps: World, s: Scan, order: seq<string>, next: World, a: string)
    requires gaps == w.(gaps := gaps.gaps) && LiveScan(gaps, s, order, next)
    ensures Lost(next, a) == Lost(w, a).Plus(ReadLoss(w, s, a))
  {
    hide ScanAll, ScanLoss, Addresses, Lost, Amounts.Plus;
    LostIgnores(w, gaps, a);
    PlusIsAssociative(Lost(w, a), ZERO, ZERO);
    if !s.reading.Deferred? {
      ScanLosses(gaps, s.epoch, s.block, s.reading.answers, order, a);
      SameScanLoss(w, gaps, s.epoch, s.block, s.reading.answers, a);
      LostIgnores(ScanAll(gaps, s.epoch, s.block, s.reading.answers, order), next, a);
    }
  }

  /** A round loses exactly what `RoundLoss` says. */
  lemma RoundLosses(w: World, s: Scan, next: World, a: string)
    requires Once(w, s, next)
    ensures Lost(next, a) == Lost(w, a).Plus(RoundLoss(w, s, a))
  {
    hide LiveScan, GapNoted, SeedAll, Pending, Lost, ReadLoss, ListingLoss, Amounts.Plus;
    PlusIsAssociative(Lost(w, a), ZERO, ZERO);
    if s.epoch !in w.seeded && !s.listing.NotListed? {
      ListingLosses(w, s.epoch, s.block, Pending(s.listing.listed), a);
    }
    if s.epoch in w.seeded || s.listing.Stored? {
      var ready := Seeded(w, s);
      var seedLoss := if s.epoch in w.seeded then ZERO else ListingLoss(w, s.epoch, s.block, Pending(s.listing.listed), a);
      assert Lost(ready, a) == Lost(w, a).Plus(seedLoss) by {
        if s.epoch !in w.seeded {
          LostIgnores(SeedAll(w, s.epoch, s.block, Pending(s.listing.listed)), ready, a);
        }
      }
      PlusIsAssociative(Lost(w, a), seedLoss, ZERO);
      PlusIsAssociative(seedLoss, ZERO, ZERO);
      if ready.cursor < s.block.height {
        var gaps, order :| GapNoted(ready.gaps, ready.cursor, s.block.height, gaps) && LiveScan(ready.(gaps := gaps), s, order, next);
        LiveScanLosses(ready, ready.(gaps := gaps), s, order, next, a);
        PlusIsAssociative(Lost(w, a), seedLoss, ReadLoss(ready, s, a));
      }
    }
  }

  /** The losses of the first rounds of a run together. */
  function LossOf(worlds: seq<World>, scans: seq<Scan>, i: nat, a: string): Amounts
    requires i <= |scans| && i <= |worlds|
  {
    if i == 0 then ZERO else LossOf(worlds, scans, i - 1, a).Plus(RoundLoss(worlds[i - 1], scans[i - 1], a))
  }

  lemma {:induction false} RunLosses(worlds: seq<World>, scans: seq<Scan>, i: nat, a: string)
    requires IsRun(worlds, scans) && i < |worlds|
    ensures Lost(worlds[i], a) == LossOf(worlds, scans, i, a)
    decreases i
  {
    hide Once, RoundLoss;
    if i > 0 {
      RunLosses(worlds, scans, i - 1, a);
      RoundLosses(worlds[i - 1], scans[i - 1], worlds[i - 1 + 1], a);
    }
  }

  /** For every run, whatever the node answers and wherever a loop stops: a position is its first-seen amounts plus the
      recorded differences if and only if the losses of the rounds add up to nothing. What a round loses is read off
      the tables and the answers before it begins. */
  lemma ConservedIff(worlds: seq<World>, scans: seq<Scan>, i: nat, a: string)
    requires IsRun(worlds, scans) && i < |worlds| && a in worlds[i].positions
    ensures a in worlds[i].first
    ensures Conserved(worlds[i], a) <==> LossOf(worlds, scans, i, a) == ZERO
  {
    hide IsRun, Total, Lost, LossOf;
    PositionsAreAccounted(worlds, scans, i, a);
    RunLosses(worlds, scans, i, a);
  }

  /** A position is its first-seen amounts plus the recorded differences. */
  ghost predicate Conserved(w: World, a: string)
    requires a in w.positions && a in w.first
  {
    w.positions[a].seen.amounts == w.first[a].Plus(Total(w.events, a))
  }

  // ------------------------------------------------------------ twice at one place

  /** Seeding an address twice in one epoch at one height, as an answer that lists it twice does, or an epoch that is
      seeded again after an error: if both changed its amounts and the inviter is the same, the second difference
      is lost. */
  lemma SeedTwiceLoses(w: World, epoch: nat, block: Block, i: Listed, j: Listed)
    requires i.address == j.address && i.address in w.positions && i.seen.inviterTx == j.seen.inviterTx
    requires i.seen.amounts != w.positions[i.address].seen.amounts && j.seen.amounts != i.seen.amounts
    ensures var next := SeedOne(SeedOne(w, epoch, block, i), epoch, block, j);
            && next.events == SeedOne(w, epoch, block, i).events
            && Lost(next, i.address) == Lost(SeedOne(w, epoch, block, i), i.address).Plus(j.seen.amounts.Minus(i.seen.amounts))
  {
    hide SeedOne, SeedNote, Accounts, Amounts.Plus, Amounts.Minus;
    SeedNoted(w, epoch, block, i);
    ResyncNote(w, epoch, block, i);
    var once := SeedOne(w, epoch, block, i);
    SeedNoted(once, epoch, block, j);
    ResyncNote(once, epoch, block, j);
  }

  /** A seeded address whose amounts changed: the id of its event does not depend on the amounts. */
  lemma ResyncNote(w: World, epoch: nat, block: Block, i: Listed)
    requires i.address in w.positions && i.seen.amounts != w.positions[i.address].seen.amounts
    ensures var note := SeedNote(w, epoch, block, i);
            && note.Some? && note.value.key == MarkedKey(Resync, epoch, block.height, i.address, GapNetChange, i.seen.inviterTx)
            && note.value.delta == i.seen.amounts.Minus(w.positions[i.address].seen.amounts)
  {
    hide KindOf, FlowOf;
  }

  /** Scanning an address again at the height it was last stored at, as happens after a scan that stopped: the second
      correction is lost. */
  lemma ScanTwiceLoses(w: World, epoch: nat, block: Block, first: map<string, Observation>, second: map<string, Observation>, a: string)
    requires a in w.positions && w.positions[a].updatedHeight == block.height && a in first && a in second
    requires first[a].amounts != w.positions[a].seen.amounts && second[a].amounts != first[a].amounts
    requires first[a].inviterTx == second[a].inviterTx
    ensures var once := ScanOne(w, epoch, block, first, a);
            var next := ScanOne(once, epoch, block, second, a);
            && next.events == once.events && Lost(next, a) == Lost(once, a).Plus(second[a].amounts.Minus(first[a].amounts))
  {
    hide ScanNote, Accounts, Amounts.Plus, Amounts.Minus, Lost;
    ScanNoted(w, epoch, block, first, a);
    ScanNoteIs(w, epoch, block, first[a], a);
    var once := ScanOne(w, epoch, block, first, a);
    ScanNoted(once, epoch, block, second, a);
    hide ScanOne;
    ScanNoteIs(once, epoch, block, second[a], a);
    ScanOneLoses(once, epoch, block, second, a);
  }

  // ------------------------------------------------------------- runs that lose

  /** What the node reports of an identity with this balance. */
  function Human(balance: int): Observation {
    Observation("Human", Amounts(balance, 0, 0, 0), "", "")
  }

  function Entry(a: string, balance: int): Listed {
    Listed(a, Human(balance), 0)
  }

  function At(height: nat): Block {
    Block(height, "", false)
  }

  /** The tables when an address was first listed, with balance zero. */
  function Started(a: string, height: nat): World {
    FRESH.(positions := map[a := Position(1, Human(0), height)], first := map[a := ZERO], seeded := {1})
  }

  lemma EntriesArePending(a: string, x: int, y: int)
    requires a != ""
    ensures Pending([Entry(a, x)]) == [Entry(a, x)] && Pending([Entry(a, x), Entry(a, y)]) == [Entry(a, x), Entry(a, y)]
  {
    assert [Entry(a, x)][..0] == [] && [Entry(a, x), Entry(a, y)][..1] == [Entry(a, x)];
  }

  lemma SeedsInOrder(w: World, epoch: nat, block: Block, i: Listed, j: Listed)
    ensures SeedAll(w, epoch, block, [i]) == SeedOne(w, epoch, block, i)
    ensures SeedAll(w, epoch, block, [i, j]) == SeedOne(SeedOne(w, epoch, block, i), epoch, block, j)
  {
    hide SeedOne;
    assert [i][..0] == [] && [i, j][..1] == [i];
  }

  lemma FirstListing(a: string, height: nat, reading: Reading)
    requires a != ""
    ensures Seeded(FRESH, Scan(1, At(height), Stored([Entry(a, 0)]), reading)) == Started(a, height)
  {
    hide KindOf, FlowOf, SeedAll, Pending, IsPending;
    EntriesArePending(a, 0, 0);
    SeedsInOrder(FRESH, 1, At(height), Entry(a, 0), Entry(a, 0));
  }

  /** A difference of four was lost. */
  ghost predicate LosesFour(worlds: seq<World>, scans: seq<Scan>, a: string) {
    && IsRun(worlds, scans) && |worlds| > 0
    && var w := worlds[|worlds| - 1]; a in w.positions && a in w.first && Lost(w, a) == Amounts(4, 0, 0, 0) && !Conserved(w, a)
  }

  lemma LostIsNotConserved(worlds: seq<World>, scans: seq<Scan>, a: string)
    requires IsRun(worlds, scans) && |worlds| > 0 && a in worlds[|worlds| - 1].positions && Lost(worlds[|worlds| - 1], a) == Amounts(4, 0, 0, 0)
    ensures LosesFour(worlds, scans, a)
  {
    hide IsRun, Total, Lost;
    PositionsAreAccounted(worlds, scans, |worlds| - 1, a);
  }

  lemma SeedingIsARound(w: World, s: Scan)
    requires s.listing.Stored? && s.block.height == 0
    ensures Once(w, s, Seeded(w, s))
  {
    hide SeedAll, Pending;
  }

  lemma SeedKeepsAddress(w: World, epoch: nat, block: Block, i: Listed)
    ensures i.address in SeedOne(w, epoch, block, i).positions && SeedOne(w, epoch, block, i).positions[i.address].seen == i.seen
    ensures SeedOne(w, epoch, block, i).seeded == w.seeded && SeedOne(w, epoch, block, i).cursor == w.cursor
    ensures w.events == map[] && w.lost == map[] ==> Lost(SeedOne(w, epoch, block, i), i.address) == ZERO
  {
    hide KindOf, FlowOf;
  }

  /** The two seedings that follow the first listing lose four. */
  lemma TwoSeedings(a: string)
    ensures var next := SeedOne(SeedOne(Started(a, 0), 2, At(0), Entry(a, 5)), 2, At(0), Entry(a, 9));
            a in next.positions && Lost(next, a) == Amounts(4, 0, 0, 0)
  {
    hide SeedOne, Lost;
    SeedKeepsAddress(Started(a, 0), 2, At(0), Entry(a, 5));
    SeedTwiceLoses(Started(a, 0), 2, At(0), Entry(a, 5), Entry(a, 9));
    SeedKeepsAddress(SeedOne(Started(a, 0), 2, At(0), Entry(a, 5)), 2, At(0), Entry(a, 9));
  }

  /** An answer that lists an address twice, with balances 5 and 9: the second difference is not recorded, and the
      position is no longer the first-seen amounts plus the recorded differences. */
  lemma ListedTwiceIsNotConserved(a: string)
    requires a != ""
    ensures var first, second := Scan(1, At(0), Stored([Entry(a, 0)]), Deferred), Scan(2, At(0), Stored([Entry(a, 5), Entry(a, 9)]), Deferred);
            var w := Seeded(FRESH, first);
            LosesFour([FRESH, w, Seeded(w, second)], [first, second], a)
  {
    hide SeedOne, SeedAll, Pending, Once, Lost, LosesFour;
    var first, second := Scan(1, At(0), Stored([Entry(a, 0)]), Deferred), Scan(2, At(0), Stored([Entry(a, 5), Entry(a, 9)]), Deferred);
    SeedingIsARound(FRESH, first);
    FirstListing(a, 0, Deferred);
    var w := Started(a, 0);
    SeedingIsARound(w, second);
    EntriesArePending(a, 5, 9);
    SeedsInOrder(w, 2, At(0), Entry(a, 5), Entry(a, 9));
    TwoSeedings(a);
    LostIgnores(SeedOne(SeedOne(w, 2, At(0), Entry(a, 5)), 2, At(0), Entry(a, 9)), Seeded(w, second), a);
    LostIsNotConserved([FRESH, w, Seeded(w, second)], [first, second], a);
  }

  /** An epoch whose listing stopped with an error after an address, and that is seeded again at the same height. */
  lemma SeededAgainIsNotConserved(a: string)
    requires a != ""
    ensures var first := Scan(1, At(0), Stored([Entry(a, 0)]), Deferred);
            var cut, again := Scan(2, At(0), StoredInPart([Entry(a, 5)]), Deferred), Scan(2, At(0), Stored([Entry(a, 9)]), Deferred);
            var w := Seeded(FRESH, first);
            var v := SeedAll(w, 2, At(0), Pending([Entry(a, 5)]));
            2 !in v.seeded && LosesFour([FRESH, w, v, Seeded(v, again)], [first, cut, again], a)
  {
    hide SeedOne, SeedAll, Pending, Lost, LosesFour;
    var first := Scan(1, At(0), Stored([Entry(a, 0)]), Deferred);
    var cut, again := Scan(2, At(0), StoredInPart([Entry(a, 5)]), Deferred), Scan(2, At(0), Stored([Entry(a, 9)]), Deferred);
    SeedingIsARound(FRESH, first);
    FirstListing(a, 0, Deferred);
    var w := Started(a, 0);
    EntriesArePending(a, 5, 9);
    EntriesArePending(a, 9, 9);
    SeedsInOrder(w, 2, At(0), Entry(a, 5), Entry(a, 5));
    var v := SeedOne(w, 2, At(0), Entry(a, 5));
    SeedKeepsAddress(w, 2, At(0), Entry(a, 5));
    SeedsInOrder(v, 2, At(0), Entry(a, 9), Entry(a, 9));
    SeedingIsARound(v, again);
    TwoSeedings(a);
    LostIgnores(SeedOne(v, 2, At(0), Entry(a, 9)), Seeded(v, again), a);
    assert Once(w, cut, v);
    ThreeRounds(w, v, Seeded(v, again), first, cut, again);
    LostIsNotConserved([FRESH, w, v, Seeded(v, again)], [first, cut, again], a);
  }

  lemma ThreeRounds(w: World, v: World, u: World, s: Scan, t: Scan, r: Scan)
    requires Once(FRESH, s, w) && Once(w, t, v) && Once(v, r, u)
    ensures IsRun([FRESH, w, v, u], [s, t, r])
  {
    hide Once;
  }

  /** Only the one address is watched. */
  lemma OnlyAddress(positions: map<string, Position>, a: string, height: nat)
    requires positions.Keys == {a} && positions[a].seen.state == "Human" && a != ""
    ensures Addresses(positions, At(height)) == {a}
  {
  }

  lemma ScanAlone(w: World, epoch: nat, block: Block, answers: map<string, Observation>, a: string)
    ensures ScanAll(w, epoch, block, answers, [a]) == ScanOne(w, epoch, block, answers, a)
  {
    hide ScanOne;
    assert [a][..0] == [];
  }

  /** A scan of the one address before the first height was processed. */
  lemma ScanIsARound(w: World, s: Scan, next: World, a: string)
    requires 1 in w.seeded && s.epoch == 1 && w.cursor == 0 && s.block == At(5) && a != ""
    requires w.positions.Keys == {a} && w.positions[a].seen.state == "Human" && !s.reading.Deferred?
    requires s.reading.ReadInPart? ==> s.reading.reached == {a}
    requires var after := ScanOne(w, 1, At(5), s.reading.answers, a);
             next == if s.reading.Read? then after.(cursor := 5, processed := after.processed + {5}) else after
    ensures Once(w, s, next)
  {
    hide ScanOne, ScanAll, Addresses;
    OnlyAddress(w.positions, a, 5);
    ScanAlone(w, 1, At(5), s.reading.answers, a);
    assert GapNoted(w.gaps, w.cursor, 5, w.gaps) && w.(gaps := w.gaps) == w;
    assert LiveScan(w, s, [a], next);
  }

  lemma ScanKeepsAddress(w: World, block: Block, answers: map<string, Observation>, a: string)
    requires a in answers && w.positions.Keys == {a}
    ensures var next := ScanOne(w, 1, block, answers, a);
            && next.positions == map[a := Position(1, answers[a], block.height)]
            && next.seeded == w.seeded && next.cursor == w.cursor
            && (w.events == map[] && w.lost == map[] ==> Lost(next, a) == ZERO)
  {
    hide KindOf, FlowOf;
  }

  /** The tables when the first round stopped, and after the second. */
  function Stopped(a: string): World {
    ScanOne(Started(a, 5), 1, At(5), map[a := Human(5)], a)
  }

  function Resumed(a: string): World {
    var after := ScanOne(Stopped(a), 1, At(5), map[a := Human(9)], a);
    after.(cursor := 5, processed := after.processed + {5})
  }

  function StoppedScan(a: string): Scan {
    Scan(1, At(5), Stored([Entry(a, 0)]), ReadInPart(map[a := Human(5)], {a}))
  }

  function ResumedScan(a: string): Scan {
    Scan(1, At(5), NotListed, Reading.Read(map[a := Human(9)]))
  }

  lemma StoppedRound(a: string)
    requires a != ""
    ensures Once(FRESH, StoppedScan(a), Stopped(a))
  {
    hide ScanOne, Once, Seeded;
    FirstListing(a, 5, StoppedScan(a).reading);
    ScanIsARound(Started(a, 5), StoppedScan(a), Stopped(a), a);
    RoundAfterSeeding(StoppedScan(a), Started(a, 5), Stopped(a));
  }

  lemma ResumedRound(a: string)
    requires a != ""
    ensures Once(Stopped(a), ResumedScan(a), Resumed(a))
  {
    hide ScanOne, Once;
    ScanKeepsAddress(Started(a, 5), At(5), map[a := Human(5)], a);
    ScanIsARound(Stopped(a), ResumedScan(a), Resumed(a), a);
  }

  lemma SecondScanLoses(w: World, first: map<string, Observation>, second: map<string, Observation>, a: string)
    requires w.positions.Keys == {a} && w.positions[a].updatedHeight == 5 && w.positions[a].seen == Human(0)
    requires w.events == map[] && w.lost == map[] && a in first && a in second && first[a] == Human(5) && second[a] == Human(9)
    ensures var next := ScanOne(ScanOne(w, 1, At(5), first, a), 1, At(5), second, a);
            a in next.positions && Lost(next, a) == Amounts(4, 0, 0, 0)
  {
    hide ScanOne, Lost;
    ScanKeepsAddress(w, At(5), first, a);
    ScanKeepsAddress(ScanOne(w, 1, At(5), first, a), At(5), second, a);
    ScanTwiceLoses(w, 1, At(5), first, second, a);
  }

  lemma ResumedLoses(a: string)
    ensures a in Resumed(a).positions && Lost(Resumed(a), a) == Amounts(4, 0, 0, 0)
  {
    hide ScanOne, Lost, Human;
    SecondScanLoses(Started(a, 5), map[a := Human(5)], map[a := Human(9)], a);
    LostIgnores(ScanOne(Stopped(a), 1, At(5), map[a := Human(9)], a), Resumed(a), a);
  }

  /** A first round at height 5 that lists an address, reads it again with balance 5 and stops with an error; then a
      round at the same height that reads balance 9: the second correction is not recorded. */
  lemma StoppedScanIsNotConserved(a: string)
    requires a != ""
    ensures LosesFour([FRESH, Stopped(a), Resumed(a)], [StoppedScan(a), ResumedScan(a)], a)
  {
    hide Stopped, Resumed, Once, Lost, LosesFour, IsRun;
    StoppedRound(a);
    ResumedRound(a);
    ResumedLoses(a);
    TwoRounds(Stopped(a), Resumed(a), StoppedScan(a), ResumedScan(a));
    LostIsNotConserved([FRESH, Stopped(a), Resumed(a)], [StoppedScan(a), ResumedScan(a)], a);
  }

  /** A round that seeds and goes on as if the epoch had been seeded. */
  lemma RoundAfterSeeding(s: Scan, ready: World, next: World)
    requires s.listing.Stored? && ready == Seeded(FRESH, s) && Once(ready, s, next) && s.epoch in ready.seeded
    ensures Once(FRESH, s, next)
  {
    hide SeedAll, Pending;
  }

  lemma TwoRounds(w: World, v: World, s: Scan, t: Scan)
    requires Once(FRESH, s, w) && Once(w, t, v)
    ensures IsRun([FRESH, w, v], [s, t])
  {
    hide Once;
  }
}
