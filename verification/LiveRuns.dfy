/**
 Whole runs of the live indexer.

 For every run: a position is its first-seen amounts plus the recorded differences plus
 what was lost in ignored events (`PositionsAreAccounted`), and every height from a
 processed one to the cursor was processed or lies in a gap (`HeightsAreCovered`).
 When no answer lists an address twice and no loop stops with an error, nothing is
 lost (`NothingIsLost`, `DeltasAreConserved`), and an address has at most one live
 event at a height and one resync event in an epoch (`OneEventPerPlace`).
 */
module LiveRuns {
  import opened ByteStrings
  import opened CoverageGaps
  import opened LiveModel

  // ------------------------------------------------------------------------ totals

  function Part(e: Event, address: string): Amounts {
    if e.key.address == address then e.delta else ZERO
  }

  /** The sum of the recorded differences of an address. */
  ghost function Total(events: map<EventKey, Event>, address: string): Amounts
    decreases |events.Keys|
  {
    if events == map[] then ZERO
    else
      var k :| k in events;
      assert (events - {k}).Keys == events.Keys - {k};
      Part(events[k], address).Plus(Total(events - {k}, address))
  }

  lemma TotalUnfolds(events: map<EventKey, Event>, address: string)
    requires events != map[]
    ensures exists k :: k in events && Total(events, address) == Part(events[k], address).Plus(Total(events - {k}, address))
  {
    hide Part;
  }

  lemma Smaller(events: map<EventKey, Event>, k: EventKey)
    requires k in events
    ensures |(events - {k}).Keys| < |events.Keys|
  {
    assert (events - {k}).Keys == events.Keys - {k};
  }

  /** The sum does not depend on the order: any event can be taken out first. */
  lemma {:induction false} TotalWithout(events: map<EventKey, Event>, address: string, k: EventKey)
    requires k in events
    ensures Total(events, address) == Part(events[k], address).Plus(Total(events - {k}, address))
    decreases |events.Keys|
  {
    hide Part, Total;
    TotalUnfolds(events, address);
    var j :| j in events && Total(events, address) == Part(events[j], address).Plus(Total(events - {j}, address));
    if j != k {
      Smaller(events, j);
      Smaller(events, k);
      TotalWithout(events - {j}, address, k);
      TotalWithout(events - {k}, address, j);
      var rest := Total(events - {j} - {k}, address);
      assert events - {j} - {k} == events - {k} - {j};
      assert Total(events - {j}, address) == Part(events[k], address).Plus(rest);
      assert Total(events - {k}, address) == Part(events[j], address).Plus(rest);
    }
  }

  lemma TotalInsert(events: map<EventKey, Event>, address: string, e: Event)
    requires e.key !in events
    ensures Total(events[e.key := e], address) == Total(events, address).Plus(Part(e, address))
  {
    hide Part, Total;
    var more := events[e.key := e];
    TotalWithout(more, address, e.key);
    assert more - {e.key} == events;
  }

  lemma {:induction false} TotalOfStranger(events: map<EventKey, Event>, address: string)
    requires forall k | k in events :: events[k].key.address != address
    ensures Total(events, address) == ZERO
    decreases |events.Keys|
  {
    if events != map[] {
      var k :| k in events;
      hide Total;
      Smaller(events, k);
      TotalOfStranger(events - {k}, address);
      TotalWithout(events, address, k);
    }
  }

  // ------------------------------------------------------- accounts, for every run

  /** Positions are first-seen amounts plus recorded differences plus lost ones. */
  ghost predicate Balanced(w: World) {
    && w.positions.Keys == w.first.Keys && w.lost.Keys <= w.positions.Keys
    && (forall k | k in w.events :: w.events[k].key == k && k.address in w.positions)
    && (forall a | a in w.positions :: w.positions[a].seen.amounts == w.first[a].Plus(Total(w.events, a)).Plus(Lost(w, a)))
  }

  /** The event says what happened to the stored amounts. */
  ghost predicate Accounts(w: World, address: string, seen: Observation, note: Option<Event>) {
    if address !in w.positions then note.None?
    else if note.None? then seen.amounts == w.positions[address].seen.amounts
    else
      && note.value.key.address == address
      && note.value.delta == seen.amounts.Minus(w.positions[address].seen.amounts)
  }

  lemma AddsUp(first: Amounts, recorded: Amounts, lost: Amounts, before: Amounts, after: Amounts)
    requires before == first.Plus(recorded).Plus(lost)
    ensures after == first.Plus(recorded.Plus(after.Minus(before))).Plus(lost)
    ensures after == first.Plus(recorded).Plus(lost.Plus(after.Minus(before)))
  {
  }

  lemma ZeroAddsNothing(a: Amounts)
    ensures a.Plus(ZERO) == a
  {
  }

  /** The account of the address a position was stored for. */
  lemma OwnAccount(w: World, address: string, p: Position, note: Option<Event>)
    requires Balanced(w) && Accounts(w, address, p.seen, note)
    ensures var next := Store(w, address, p, note);
            p.seen.amounts == next.first[address].Plus(Total(next.events, address)).Plus(Lost(next, address))
  {
    hide Total, Amounts.Plus, Amounts.Minus;
    if address !in w.positions {
      TotalOfStranger(w.events, address);
      ZeroAddsNothing(p.seen.amounts);
    } else if note.Some? {
      AddsUp(w.first[address], Total(w.events, address), Lost(w, address), w.positions[address].seen.amounts, p.seen.amounts);
      if note.value.key !in w.events {
        TotalInsert(w.events, address, note.value);
      }
    }
  }

  /** The account of another address. */
  lemma OtherAccount(w: World, address: string, p: Position, note: Option<Event>, a: string)
    requires Balanced(w) && Accounts(w, address, p.seen, note) && a != address && a in w.positions
    ensures var next := Store(w, address, p, note);
            next.positions[a].seen.amounts == next.first[a].Plus(Total(next.events, a)).Plus(Lost(next, a))
  {
    hide Total, Amounts.Plus, Amounts.Minus;
    ZeroAddsNothing(Total(w.events, a));
    if note.Some? && note.value.key !in w.events {
      TotalInsert(w.events, a, note.value);
    }
  }

  lemma StoreKeys(w: World, address: string, p: Position, note: Option<Event>)
    requires Balanced(w) && Accounts(w, address, p.seen, note)
    ensures var next := Store(w, address, p, note);
            && next.positions.Keys == w.positions.Keys + {address} && next.positions[address] == p
            && next.positions.Keys == next.first.Keys && next.lost.Keys <= next.positions.Keys
            && (forall k | k in next.events :: next.events[k].key == k && k.address in next.positions)
            && FirstLasts(w, next)
  {
    hide Total, Lost, Amounts.Plus, Amounts.Minus;
  }

  lemma StoreBalances(w: World, address: string, p: Position, note: Option<Event>)
    requires Balanced(w) && Accounts(w, address, p.seen, note)
    ensures Balanced(Store(w, address, p, note)) && FirstLasts(w, Store(w, address, p, note))
  {
    hide Total, Lost, Store, Accounts, FirstLasts, Amounts.Plus, Amounts.Minus;
    StoreKeys(w, address, p, note);
    forall a | a in Store(w, address, p, note).positions
      ensures var next := Store(w, address, p, note);
              next.positions[a].seen.amounts == next.first[a].Plus(Total(next.events, a)).Plus(Lost(next, a))
    {
      if a == address {
        OwnAccount(w, address, p, note);
      } else {
        OtherAccount(w, address, p, note, a);
      }
    }
  }

  /** First-seen amounts are never touched again. */
  ghost predicate FirstLasts(w: World, next: World) {
    forall a | a in w.first :: a in next.first && next.first[a] == w.first[a]
  }

  /** The event a seeded address gives rise to. */
  function SeedNote(w: World, epoch: nat, block: Block, i: Listed): Option<Event> {
    if i.address !in w.positions then None
    else
      var was := w.positions[i.address].seen;
      if i.seen.amounts.Minus(was.amounts) != ZERO || was.state != i.seen.state
      then Some(Marked(EventFrom(Resync, i.address, epoch, block, was, i.seen), GapNetChange)) else None
  }

  lemma SeedNoted(w: World, epoch: nat, block: Block, i: Listed)
    ensures SeedOne(w, epoch, block, i) == Store(w, i.address, Position(epoch, i.seen, block.height), SeedNote(w, epoch, block, i))
    ensures Accounts(w, i.address, i.seen, SeedNote(w, epoch, block, i))
  {
    hide KindOf, FlowOf, Store;
  }

  /** The event a scanned address gives rise to. */
  function ScanNote(w: World, epoch: nat, block: Block, seen: Observation, address: string): Option<Event> {
    if address !in w.positions then None
    else
      var stored := w.positions[address];
      var was := stored.seen;
      if seen.amounts.Minus(was.amounts) == ZERO && was.state == seen.state && was.delegatee == seen.delegatee then None
      else
        var event := EventFrom(LiveDelta, address, epoch, block, was, seen);
        Some(if stored.updatedHeight == block.height then Marked(event, SameHeightCorrection) else event)
  }

  lemma ScanNoted(w: World, epoch: nat, block: Block, answers: map<string, Observation>, address: string)
    requires address in answers
    ensures ScanOne(w, epoch, block, answers, address)
         == Store(w, address, Position(epoch, answers[address], block.height), ScanNote(w, epoch, block, answers[address], address))
    ensures Accounts(w, address, answers[address], ScanNote(w, epoch, block, answers[address], address))
  {
    hide KindOf, FlowOf, Store;
  }

  lemma {:induction false} SeedBalances(w: World, epoch: nat, block: Block, pending: seq<Listed>)
    requires Balanced(w)
    ensures Balanced(SeedAll(w, epoch, block, pending)) && FirstLasts(w, SeedAll(w, epoch, block, pending))
    ensures SameElsewhere(w, SeedAll(w, epoch, block, pending))
    decreases |pending|
  {
    hide Balanced, SeedNote, SeedOne;
    if pending != [] {
      var front, i := pending[..|pending| - 1], pending[|pending| - 1];
      SeedBalances(w, epoch, block, front);
      var now := SeedAll(w, epoch, block, front);
      SeedNoted(now, epoch, block, i);
      StoreBalances(now, i.address, Position(epoch, i.seen, block.height), SeedNote(now, epoch, block, i));
    }
  }

  lemma {:induction false} ScanBalances(w: World, epoch: nat, block: Block, answers: map<string, Observation>, order: seq<string>)
    requires Balanced(w)
    ensures Balanced(ScanAll(w, epoch, block, answers, order)) && FirstLasts(w, ScanAll(w, epoch, block, answers, order))
    ensures SameElsewhere(w, ScanAll(w, epoch, block, answers, order))
    decreases |order|
  {
    hide Balanced, ScanNote;
    if order != [] {
      var front, address := order[..|order| - 1], order[|order| - 1];
      ScanBalances(w, epoch, block, answers, front);
      var now := ScanAll(w, epoch, block, answers, front);
      if address in answers {
        ScanNoted(now, epoch, block, answers, address);
        hide ScanOne;
        StoreBalances(now, address, Position(epoch, answers[address], block.height),
                      ScanNote(now, epoch, block, answers[address], address));
      }
    }
  }

  /** The loops over addresses leave the cursor, the gaps and the seeded epochs alone. */
  ghost predicate SameElsewhere(w: World, next: World) {
    next.cursor == w.cursor && next.gaps == w.gaps && next.seeded == w.seeded && next.processed == w.processed
  }

  /** The accounts do not depend on cursor, gaps and seeded epochs. */
  lemma BalancedIgnores(w: World, next: World)
    requires Balanced(w) && next.positions == w.positions && next.events == w.events && next.first == w.first && next.lost == w.lost
    ensures Balanced(next)
  {
    hide Total;
  }

  // ------------------------------------------------------- coverage, for every run

  /** Every height from the first processed one to the cursor was processed or lies in a gap. */
  ghost predicate Covered(w: World) {
    && Tidy(w.gaps)
    && (w.cursor == 0 <==> w.processed == {})
    && (w.cursor != 0 ==> w.cursor in w.processed)
    && (forall p | p in w.processed :: p <= w.cursor)
    && (forall p, h: nat | p in w.processed && p <= h <= w.cursor :: h in w.processed || InGap(w.gaps, GAP_REASON, h))
  }

  lemma CoveredIgnores(w: World, next: World)
    requires Covered(w) && next.gaps == w.gaps && next.cursor == w.cursor && next.processed == w.processed
    ensures Covered(next)
  {
  }

  lemma GapKeepsCovered(w: World, height: nat, gaps: set<Gap>)
    requires Covered(w) && GapNoted(w.gaps, w.cursor, height, gaps)
    ensures Covered(w.(gaps := gaps))
    ensures w.cursor != 0 ==> forall h | w.cursor < h < height :: InGap(gaps, GAP_REASON, h)
  {
    hide InGap, Tidy, Recorded;
    if w.cursor != 0 && height > w.cursor + 1 {
      RecordedIsUnion(w.gaps, w.cursor + 1, height - 1, GAP_REASON, gaps);
    }
  }

  lemma ProcessedIsCovered(w: World, height: nat, next: World)
    requires Covered(w) && w.cursor < height
    requires w.cursor != 0 ==> forall h | w.cursor < h < height :: InGap(w.gaps, GAP_REASON, h)
    requires next.gaps == w.gaps && next.cursor == height && next.processed == w.processed + {height}
    ensures Covered(next)
  {
    hide InGap, Tidy;
  }

  lemma LiveScanKeeps(w: World, s: Scan, order: seq<string>, next: World)
    requires Balanced(w) && Covered(w) && w.cursor < s.block.height && LiveScan(w, s, order, next)
    requires w.cursor != 0 ==> forall h | w.cursor < h < s.block.height :: InGap(w.gaps, GAP_REASON, h)
    ensures Balanced(next) && Covered(next) && FirstLasts(w, next)
  {
    hide Balanced, Covered, InGap, ScanAll, Addresses;
    if !s.reading.Deferred? {
      ScanBalances(w, s.epoch, s.block, s.reading.answers, order);
      var after := ScanAll(w, s.epoch, s.block, s.reading.answers, order);
      CoveredIgnores(w, after);
      if s.reading.Read? {
        BalancedIgnores(after, next);
        ProcessedIsCovered(after, s.block.height, next);
      }
    }
  }

  lemma SeededKeeps(w: World, s: Scan)
    requires Balanced(w) && Covered(w) && (s.epoch in w.seeded || s.listing.Stored?)
    ensures Balanced(Seeded(w, s)) && Covered(Seeded(w, s)) && FirstLasts(w, Seeded(w, s))
  {
    hide Balanced, Covered, SeedAll, Pending;
    if s.epoch !in w.seeded {
      var pending := Pending(s.listing.listed);
      SeedBalances(w, s.epoch, s.block, pending);
      BalancedIgnores(SeedAll(w, s.epoch, s.block, pending), Seeded(w, s));
      CoveredIgnores(w, Seeded(w, s));
    }
  }

  /** One call of `once` keeps the accounts and the coverage. */
  lemma OnceKeeps(w: World, s: Scan, next: World)
    requires Balanced(w) && Covered(w) && Once(w, s, next)
    ensures Balanced(next) && Covered(next) && FirstLasts(w, next)
  {
    hide Balanced, Covered, GapNoted, LiveScan, Seeded, SeedAll, Pending;
    if s.epoch in w.seeded || s.listing.Stored? {
      SeededKeeps(w, s);
      var ready := Seeded(w, s);
      if ready.cursor < s.block.height {
        var gaps, order :| GapNoted(ready.gaps, ready.cursor, s.block.height, gaps) && LiveScan(ready.(gaps := gaps), s, order, next);
        GapKeepsCovered(ready, s.block.height, gaps);
        BalancedIgnores(ready, ready.(gaps := gaps));
        LiveScanKeeps(ready.(gaps := gaps), s, order, next);
      }
    } else if s.listing.StoredInPart? {
      SeedBalances(w, s.epoch, s.block, Pending(s.listing.listed));
      CoveredIgnores(w, next);
    }
  }

  lemma FreshIsFine()
    ensures Balanced(FRESH) && Covered(FRESH)
  {
  }

  lemma {:induction false} RunKeeps(worlds: seq<World>, scans: seq<Scan>, i: nat)
    requires IsRun(worlds, scans) && i < |worlds|
    ensures Balanced(worlds[i]) && Covered(worlds[i])
    ensures i > 0 ==> FirstLasts(worlds[i - 1], worlds[i])
    decreases i
  {
    hide Balanced, Covered, Once, FirstLasts;
    if i == 0 {
      FreshIsFine();
    } else {
      RunKeeps(worlds, scans, i - 1);
      OnceKeeps(worlds[i - 1], scans[i - 1], worlds[i - 1 + 1]);
    }
  }

  /** At any time in any run, whatever the node answers: every component of a position is the first-seen value plus
      the sum of that component over the recorded events plus what was lost in ignored ones. */
  lemma PositionsAreAccounted(worlds: seq<World>, scans: seq<Scan>, i: nat, address: string)
    requires IsRun(worlds, scans) && i < |worlds| && address in worlds[i].positions
    ensures var w := worlds[i];
            && address in w.first
            && w.positions[address].seen.amounts == w.first[address].Plus(Total(w.events, address)).Plus(Lost(w, address))
  {
    hide IsRun, Covered, Total, Lost;
    RunKeeps(worlds, scans, i);
  }

  /** What an address had when it was first stored is remembered for the rest of the run. */
  lemma {:induction false} FirstSeenLasts(worlds: seq<World>, scans: seq<Scan>, i: nat, j: nat, address: string)
    requires IsRun(worlds, scans) && i <= j < |worlds| && address in worlds[i].first
    ensures address in worlds[j].first && worlds[j].first[address] == worlds[i].first[address]
    decreases j
  {
    hide IsRun, Balanced, Covered;
    if i < j {
      FirstSeenLasts(worlds, scans, i, j - 1, address);
      RunKeeps(worlds, scans, j);
    }
  }

  /** At any time in any run the table of gaps is tidy, and every height from any processed one to the cursor was
      processed or lies in a gap, also when scans in between were put off or stopped with an error. */
  lemma HeightsAreCovered(worlds: seq<World>, scans: seq<Scan>, i: nat, p: nat, h: nat)
    requires IsRun(worlds, scans) && i < |worlds| && p in worlds[i].processed && p <= h <= worlds[i].cursor
    ensures Tidy(worlds[i].gaps)
    ensures h in worlds[i].processed || InGap(worlds[i].gaps, GAP_REASON, h)
  {
    hide IsRun, Balanced, InGap, Tidy;
    RunKeeps(worlds, scans, i);
  }

  // -------------------------------------------------------------- runs without hitch

  /** Two live events of one address at one height, or two resync events of one address in one epoch. */
  predicate SamePlace(j: EventKey, k: EventKey) {
    j.source == k.source && j.address == k.address && if j.source == LiveDelta then j.height == k.height else j.epoch == k.epoch
  }

  /** Nothing was lost, and no place has two events. */
  ghost predicate Clean(w: World) {
    w.lost == map[] && forall j, k | j in w.events && k in w.events && SamePlace(j, k) :: j == k
  }

  /** Live events lie at or below the cursor, resync events in seeded epochs. */
  ghost predicate Settled(w: World) {
    forall k | k in w.events :: if k.source == LiveDelta then k.height <= w.cursor else k.epoch in w.seeded
  }

  lemma SamePlaceSymmetric(key: EventKey)
    ensures forall k :: SamePlace(k, key) <==> SamePlace(key, k)
    ensures SamePlace(key, key)
  {
  }

  /** The events are those of before, and some of this loop at these addresses. */
  ghost predicate Grown(w: World, now: World, source: Source, epoch: nat, height: nat, names: set<string>) {
    forall k | k in now.events ::
      k in w.events || (k.source == source && k.epoch == epoch && k.height == height && k.address in names)
  }

  /** A loop that has not come to an address yet finds no event at its place. */
  lemma StoreIsClean(
      w: World, now: World, source: Source, epoch: nat, height: nat, names: set<string>,
      address: string, p: Position, note: Option<Event>)
    requires Clean(now) && Grown(w, now, source, epoch, height, names) && address !in names
    requires forall k | k in w.events && k.source == source :: if source == LiveDelta then k.height != height else k.epoch != epoch
    requires note.Some? ==> note.value.key.source == source && note.value.key.epoch == epoch && note.value.key.height == height
                            && note.value.key.address == address
    ensures Clean(Store(now, address, p, note))
    ensures Grown(w, Store(now, address, p, note), source, epoch, height, names + {address})
  {
    if note.Some? {
      var key := note.value.key;
      SamePlaceSymmetric(key);
      assert forall k | k in now.events :: !SamePlace(k, key);
      assert key !in now.events;
    }
  }

  function Names(pending: seq<Listed>): set<string> {
    set i | 0 <= i < |pending| :: pending[i].address
  }

  lemma NamesSnoc(pending: seq<Listed>)
    requires pending != []
    ensures Names(pending) == Names(pending[..|pending| - 1]) + {pending[|pending| - 1].address}
  {
    var front := pending[..|pending| - 1];
    forall a | a in Names(front) ensures a in Names(pending) {
      var i :| 0 <= i < |front| && front[i].address == a;
      assert pending[i].address in Names(pending);
    }
    assert pending[|pending| - 1].address in Names(pending);
    forall a | a in Names(pending) ensures a in Names(front) || a == pending[|pending| - 1].address {
      var i :| 0 <= i < |pending| && pending[i].address == a;
      if i < |front| {
        assert front[i].address in Names(front);
      }
    }
  }

  lemma SeedNoteKey(w: World, epoch: nat, block: Block, i: Listed)
    ensures var note := SeedNote(w, epoch, block, i);
            note.Some? ==> note.value.key.source == Resync && note.value.key.epoch == epoch
                           && note.value.key.height == block.height && note.value.key.address == i.address
  {
    hide KindOf, FlowOf;
  }

  lemma {:induction false} SeedIsClean(w: World, epoch: nat, block: Block, pending: seq<Listed>)
    requires Clean(w) && ListedOnce(pending) && forall k | k in w.events && k.source == Resync :: k.epoch != epoch
    ensures Clean(SeedAll(w, epoch, block, pending))
    ensures Grown(w, SeedAll(w, epoch, block, pending), Resync, epoch, block.height, Names(pending))
    decreases |pending|
  {
    hide Clean, SeedOne, SeedNote, Store, Accounts;
    if pending != [] {
      var front, i := pending[..|pending| - 1], pending[|pending| - 1];
      SeedIsClean(w, epoch, block, front);
      NamesSnoc(pending);
      var now := SeedAll(w, epoch, block, front);
      assert i.address !in Names(front) by {
        assert forall j | 0 <= j < |front| :: front[j] == pending[j];
      }
      SeedNoted(now, epoch, block, i);
      SeedNoteKey(now, epoch, block, i);
      StoreIsClean(w, now, Resync, epoch, block.height, Names(front), i.address, Position(epoch, i.seen, block.height),
                   SeedNote(now, epoch, block, i));
    }
  }

  function Elements(order: seq<string>): set<string> {
    set a | a in order
  }

  lemma ScanNoteKey(w: World, epoch: nat, block: Block, seen: Observation, address: string)
    ensures var note := ScanNote(w, epoch, block, seen, address);
            note.Some? ==> note.value.key.source == LiveDelta && note.value.key.epoch == epoch
                           && note.value.key.height == block.height && note.value.key.address == address
  {
    hide KindOf, FlowOf;
  }

  lemma {:induction false} ScanIsClean(w: World, epoch: nat, block: Block, answers: map<string, Observation>, order: seq<string>)
    requires Clean(w) && Distinct(order) && forall k | k in w.events && k.source == LiveDelta :: k.height != block.height
    ensures Clean(ScanAll(w, epoch, block, answers, order))
    ensures Grown(w, ScanAll(w, epoch, block, answers, order), LiveDelta, epoch, block.height, Elements(order))
    decreases |order|
  {
    hide Clean, ScanNote, Store, Accounts;
    if order != [] {
      var front, address := order[..|order| - 1], order[|order| - 1];
      ScanIsClean(w, epoch, block, answers, front);
      var now := ScanAll(w, epoch, block, answers, front);
      assert order == front + [address];
      assert Elements(order) == Elements(front) + {address};
      if address in answers {
        ScanNoted(now, epoch, block, answers, address);
        ScanNoteKey(now, epoch, block, answers[address], address);
        hide ScanOne;
        StoreIsClean(w, now, LiveDelta, epoch, block.height, Elements(front), address,
                     Position(epoch, answers[address], block.height), ScanNote(now, epoch, block, answers[address], address));
      }
    }
  }

  lemma CleanIgnores(w: World, next: World)
    requires Clean(w) && next.events == w.events && next.lost == w.lost
    ensures Clean(next)
  {
  }

  lemma SeededIsClean(w: World, s: Scan)
    requires Balanced(w) && Clean(w) && Settled(w) && Smooth(s) && (s.epoch in w.seeded || s.listing.Stored?)
    ensures Clean(Seeded(w, s)) && Settled(Seeded(w, s))
  {
    hide Clean, Balanced, SeedAll, Pending, ListedOnce;
    if s.epoch !in w.seeded {
      var pending := Pending(s.listing.listed);
      SeedIsClean(w, s.epoch, s.block, pending);
      SeedBalances(w, s.epoch, s.block, pending);
      CleanIgnores(SeedAll(w, s.epoch, s.block, pending), Seeded(w, s));
    }
  }

  lemma LiveScanIsClean(w: World, s: Scan, order: seq<string>, next: World)
    requires Balanced(w) && Clean(w) && Settled(w) && Smooth(s) && w.cursor < s.block.height && LiveScan(w, s, order, next)
    ensures Clean(next) && Settled(next)
  {
    hide Clean, Balanced, ScanAll, Addresses, ListedOnce, Pending;
    if s.reading.Read? {
      ScanIsClean(w, s.epoch, s.block, s.reading.answers, order);
      ScanBalances(w, s.epoch, s.block, s.reading.answers, order);
      CleanIgnores(ScanAll(w, s.epoch, s.block, s.reading.answers, order), next);
    }
  }

  lemma OnceIsClean(w: World, s: Scan, next: World)
    requires Balanced(w) && Covered(w) && Clean(w) && Settled(w) && Smooth(s) && Once(w, s, next)
    ensures Clean(next) && Settled(next)
  {
    hide Balanced, Covered, Clean, GapNoted, LiveScan, Seeded, SeedAll, Pending, ListedOnce;
    if s.epoch in w.seeded || s.listing.Stored? {
      SeededKeeps(w, s);
      SeededIsClean(w, s);
      var ready := Seeded(w, s);
      if ready.cursor < s.block.height {
        var gaps, order :| GapNoted(ready.gaps, ready.cursor, s.block.height, gaps) && LiveScan(ready.(gaps := gaps), s, order, next);
        BalancedIgnores(ready, ready.(gaps := gaps));
        CleanIgnores(ready, ready.(gaps := gaps));
        LiveScanIsClean(ready.(gaps := gaps), s, order, next);
      }
    }
  }

  lemma {:induction false} RunIsClean(worlds: seq<World>, scans: seq<Scan>, i: nat)
    requires IsRun(worlds, scans) && i < |worlds| && forall s | s in scans :: Smooth(s)
    ensures Clean(worlds[i]) && Settled(worlds[i])
    decreases i
  {
    hide Balanced, Covered, Once, Smooth, FirstLasts;
    if i > 0 {
      hide Clean, Settled;
      RunIsClean(worlds, scans, i - 1);
      RunKeeps(worlds, scans, i - 1);
      assert scans[i - 1] in scans;
      OnceIsClean(worlds[i - 1], scans[i - 1], worlds[i - 1 + 1]);
    }
  }

  /** When no answer lists an address twice and no loop stops with an error, no event is ignored because its id is
      taken: re-keyed corrections and resync events never collide. */
  lemma NothingIsLost(worlds: seq<World>, scans: seq<Scan>, i: nat)
    requires IsRun(worlds, scans) && i < |worlds| && forall s | s in scans :: Smooth(s)
    ensures worlds[i].lost == map[]
  {
    hide IsRun, Smooth, Settled;
    RunIsClean(worlds, scans, i);
  }

  /** A run never records two live events of an address at one height, or two resync events in one epoch. */
  lemma OneEventPerPlace(worlds: seq<World>, scans: seq<Scan>, i: nat, j: EventKey, k: EventKey)
    requires IsRun(worlds, scans) && i < |worlds| && forall s | s in scans :: Smooth(s)
    requires j in worlds[i].events && k in worlds[i].events && SamePlace(j, k)
    ensures j == k
  {
    hide IsRun, Smooth, Settled;
    RunIsClean(worlds, scans, i);
  }

  /** Conservation: every component of a position is the first-seen value plus the sum of that component over the
      recorded events. */
  lemma DeltasAreConserved(worlds: seq<World>, scans: seq<Scan>, i: nat, address: string)
    requires IsRun(worlds, scans) && i < |worlds| && address in worlds[i].positions && forall s | s in scans :: Smooth(s)
    ensures var w := worlds[i];
            && address in w.first
            && w.positions[address].seen.amounts == w.first[address].Plus(Total(w.events, address))
  {
    hide IsRun, Smooth, Total;
    NothingIsLost(worlds, scans, i);
    PositionsAreAccounted(worlds, scans, i, address);
  }

  // ------------------------------------------------- heads that never fall back

  ghost predicate Rising(scans: seq<Scan>) {
    forall i, j | 0 <= i <= j < |scans| :: scans[i].block.height <= scans[j].block.height
  }

  /** Heights in gaps lie below the head and were not processed. */
  ghost predicate Split(w: World, head: nat) {
    && w.cursor <= head
    && (forall p | p in w.processed :: p <= w.cursor)
    && (forall h: nat | InGap(w.gaps, GAP_REASON, h) :: h < head && h !in w.processed)
  }

  lemma SplitStep(w: World, s: Scan, head: nat, gaps: set<Gap>, order: seq<string>, next: World)
    requires Balanced(w) && Covered(w) && Split(w, head) && w.cursor < s.block.height && head <= s.block.height
    requires GapNoted(w.gaps, w.cursor, s.block.height, gaps) && LiveScan(w.(gaps := gaps), s, order, next)
    ensures Split(next, s.block.height)
  {
    hide Balanced, InGap, Tidy, Recorded, Addresses, ScanAll, FirstLasts;
    var noted := w.(gaps := gaps);
    if w.cursor != 0 && s.block.height > w.cursor + 1 {
      RecordedIsUnion(w.gaps, w.cursor + 1, s.block.height - 1, GAP_REASON, gaps);
    }
    assert Split(noted, s.block.height);
    BalancedIgnores(w, noted);
    if !s.reading.Deferred? {
      ScanBalances(noted, s.epoch, s.block, s.reading.answers, order);
    }
  }

  lemma OnceSplits(w: World, s: Scan, head: nat, next: World)
    requires Balanced(w) && Covered(w) && Split(w, head) && head <= s.block.height && Once(w, s, next)
    ensures Split(next, s.block.height)
  {
    hide Balanced, Covered, InGap, GapNoted, LiveScan, SeedAll, Pending, FirstLasts;
    if s.epoch in w.seeded || s.listing.Stored? {
      SeededKeeps(w, s);
      var ready := Seeded(w, s);
      assert SameButSeeded(w, ready) by { SeededElsewhere(w, s); }
      if ready.cursor < s.block.height {
        var gaps, order :| GapNoted(ready.gaps, ready.cursor, s.block.height, gaps) && LiveScan(ready.(gaps := gaps), s, order, next);
        SplitStep(ready, s, head, gaps, order, next);
      }
    } else if s.listing.StoredInPart? {
      SeedBalances(w, s.epoch, s.block, Pending(s.listing.listed));
    }
  }

  ghost predicate SameButSeeded(w: World, next: World) {
    next.cursor == w.cursor && next.gaps == w.gaps && next.processed == w.processed
  }

  lemma SeededElsewhere(w: World, s: Scan)
    requires Balanced(w) && (s.epoch in w.seeded || s.listing.Stored?)
    ensures SameButSeeded(w, Seeded(w, s))
  {
    hide Balanced, SeedAll, Pending, FirstLasts;
    if s.epoch !in w.seeded {
      SeedBalances(w, s.epoch, s.block, Pending(s.listing.listed));
    }
  }

  lemma {:induction false} RunSplits(worlds: seq<World>, scans: seq<Scan>, i: nat)
    requires IsRun(worlds, scans) && Rising(scans) && i < |worlds|
    ensures Split(worlds[i], if i == 0 then 0 else scans[i - 1].block.height)
    decreases i
  {
    hide Balanced, Covered, Once, Split, FirstLasts;
    if i == 0 {
      FreshSplits();
    } else {
      RunSplits(worlds, scans, i - 1);
      RunKeeps(worlds, scans, i - 1);
      OnceSplits(worlds[i - 1], scans[i - 1], if i == 1 then 0 else scans[i - 2].block.height, worlds[i - 1 + 1]);
    }
  }

  lemma FreshSplits()
    ensures Split(FRESH, 0)
  {
  }

  /** When the head never falls back, every height from a processed one to the cursor is either processed or in a
      gap, and never both. */
  lemma GapsMissProcessed(worlds: seq<World>, scans: seq<Scan>, i: nat, p: nat, h: nat)
    requires IsRun(worlds, scans) && Rising(scans) && i < |worlds|
    requires p in worlds[i].processed && p <= h <= worlds[i].cursor
    ensures h in worlds[i].processed <==> !InGap(worlds[i].gaps, GAP_REASON, h)
  {
    hide IsRun, InGap, Rising;
    RunSplits(worlds, scans, i);
    HeightsAreCovered(worlds, scans, i, p, h);
  }

  /** No processed height lies in a gap. */
  ghost predicate Clear(w: World) {
    forall h: nat | h in w.processed :: !InGap(w.gaps, GAP_REASON, h)
  }

  /** The round processes its height. */
  predicate Processes(w: World, s: Scan) {
    (s.epoch in w.seeded || s.listing.Stored?) && w.cursor < s.block.height && s.reading.Read?
  }

  lemma ClearScan(w: World, s: Scan, gaps: set<Gap>, order: seq<string>, next: World)
    requires Balanced(w) && Covered(w) && w.cursor < s.block.height
    requires GapNoted(w.gaps, w.cursor, s.block.height, gaps) && LiveScan(w.(gaps := gaps), s, order, next)
    ensures Clear(next) <==> Clear(w) && (s.reading.Read? ==> !InGap(w.gaps, GAP_REASON, s.block.height))
  {
    hide Balanced, InGap, Tidy, Recorded, Addresses, ScanAll, FirstLasts;
    var noted := w.(gaps := gaps);
    assert forall h | InGap(gaps, GAP_REASON, h) :: InGap(w.gaps, GAP_REASON, h) || w.cursor < h < s.block.height by {
      if w.cursor != 0 && s.block.height > w.cursor + 1 {
        RecordedIsUnion(w.gaps, w.cursor + 1, s.block.height - 1, GAP_REASON, gaps);
      }
    }
    assert forall h | InGap(w.gaps, GAP_REASON, h) :: InGap(gaps, GAP_REASON, h) by {
      if w.cursor != 0 && s.block.height > w.cursor + 1 {
        RecordedIsUnion(w.gaps, w.cursor + 1, s.block.height - 1, GAP_REASON, gaps);
      }
    }
    BalancedIgnores(w, noted);
    if !s.reading.Deferred? {
      ScanBalances(noted, s.epoch, s.block, s.reading.answers, order);
    }
  }

  lemma ClearRound(w: World, s: Scan, next: World)
    requires Balanced(w) && Covered(w) && Once(w, s, next)
    ensures Clear(next) <==> Clear(w) && (Processes(w, s) ==> !InGap(w.gaps, GAP_REASON, s.block.height))
  {
    hide Balanced, Covered, InGap, GapNoted, LiveScan, SeedAll, Pending, FirstLasts;
    if s.epoch in w.seeded || s.listing.Stored? {
      SeededKeeps(w, s);
      var ready := Seeded(w, s);
      assert SameButSeeded(w, ready) by { SeededElsewhere(w, s); }
      if ready.cursor < s.block.height {
        var gaps, order :| GapNoted(ready.gaps, ready.cursor, s.block.height, gaps) && LiveScan(ready.(gaps := gaps), s, order, next);
        ClearScan(ready, s, gaps, order, next);
      }
    } else if s.listing.StoredInPart? {
      SeedBalances(w, s.epoch, s.block, Pending(s.listing.listed));
    }
  }

  /** For every run, also when the head falls back: no processed height lies in a gap if and only if no round processed
      a height that lay in a gap when it began. */
  lemma {:induction false} GapsMissProcessedIff(worlds: seq<World>, scans: seq<Scan>, i: nat)
    requires IsRun(worlds, scans) && i < |worlds|
    ensures Clear(worlds[i]) <==>
              forall j | 0 <= j < i && Processes(worlds[j], scans[j]) :: !InGap(worlds[j].gaps, GAP_REASON, scans[j].block.height)
    decreases i
  {
    hide Balanced, Covered, Once, FirstLasts, InGap, Processes;
    if i > 0 {
      hide Clear;
      GapsMissProcessedIff(worlds, scans, i - 1);
      RunKeeps(worlds, scans, i - 1);
      ClearRound(worlds[i - 1], scans[i - 1], worlds[i - 1 + 1]);
    }
  }

  /** A round of a node that knows no identities. */
  function Quiet(height: nat, reading: Reading): Scan {
    Scan(1, Block(height, "", false), Stored([]), reading)
  }

  lemma QuietScan(w: World, height: nat, gaps: set<Gap>, reading: Reading)
    requires w.positions == map[] && w.seeded == {1} && w.cursor < height && GapNoted(w.gaps, w.cursor, height, gaps)
    requires reading == Deferred || reading == Reading.Read(map[])
    ensures Once(w, Quiet(height, reading),
                 if reading.Deferred? then w.(gaps := gaps) else w.(gaps := gaps, cursor := height, processed := w.processed + {height}))
  {
    hide Recorded;
    var s, noted := Quiet(height, reading), w.(gaps := gaps);
    assert Addresses(noted.positions, s.block) == {};
    if reading.Deferred? {
      assert LiveScan(noted, s, [], noted);
    } else {
      assert LiveScan(noted, s, [], noted.(cursor := height, processed := w.processed + {height}));
    }
  }

  lemma QuietStart()
    ensures Once(FRESH, Quiet(5, Reading.Read(map[])), FRESH.(seeded := {1}, cursor := 5, processed := {5}))
  {
    var s, w := Quiet(5, Reading.Read(map[])), FRESH.(seeded := {1});
    assert Seeded(FRESH, s) == w;
    assert Addresses(w.positions, s.block) == {};
    assert w.(gaps := {}) == w && GapNoted({}, 0, 5, {});
    assert LiveScan(w, s, [], w.(cursor := 5, processed := {5}));
  }

  lemma OneGap(first: int, last: int, before: set<Gap>)
    requires 6 <= first <= last <= 9 && ((before == {} && first == 6 && last == 9) || before == {Gap(6, 9, GAP_REASON)})
    ensures Recorded(before, first, last, GAP_REASON, {Gap(6, 9, GAP_REASON)})
  {
    hide GAP_REASON;
    var hits, m := Hits(before, first, last, GAP_REASON), Gap(6, 9, GAP_REASON);
    assert hits == before;
    assert before != {} ==> m in hits;
    assert Spans(m, first, last, GAP_REASON, hits) && {m} == (before - hits) + {m};
  }

  /** A head that falls back: height 5 is processed, 10 put off, then 8 processed, which the gap from 6 to 9 contains. */
  lemma FallingHeadOverlaps()
    ensures var w := FRESH.(seeded := {1}, cursor := 5, processed := {5});
            var v := w.(gaps := {Gap(6, 9, GAP_REASON)});
            var u := v.(cursor := 8, processed := {5} + {8});
            && IsRun([FRESH, w, v, u], [Quiet(5, Reading.Read(map[])), Quiet(10, Deferred), Quiet(8, Reading.Read(map[]))])
            && !Clear(u)
  {
    hide Once, Recorded, GAP_REASON;
    var w := FRESH.(seeded := {1}, cursor := 5, processed := {5});
    var v := w.(gaps := {Gap(6, 9, GAP_REASON)});
    var u := v.(cursor := 8, processed := {5} + {8});
    QuietStart();
    OneGap(6, 9, {});
    OneGap(6, 7, v.gaps);
    QuietScan(w, 10, v.gaps, Deferred);
    QuietScan(v, 8, v.gaps, Reading.Read(map[]));
    assert v.(gaps := v.gaps, cursor := 8, processed := v.processed + {8}) == u;
    assert InGap(u.gaps, GAP_REASON, 8) by { assert Gap(6, 9, GAP_REASON) in u.gaps; }
    assert 8 in u.processed;
  }

  // ------------------------------------------------------------- what is a reward

  /** The kinds an export takes for rewards. */
  predicate IsReward(kind: Kind) {
    kind == SessionReward || kind == ProposerReward || kind == CommitteeReward
  }

  function Gain(delta: Amounts): int {
    delta.balance + delta.stake
  }

  /** A reward is a gain of a live scan that leaves the locked stake alone; a marked event never counts as one. */
  predicate Honest(e: Event) {
    match e.key
    case DeltaKey(source, _, _, _, kind, delta, _) =>
      && source == LiveDelta && delta == e.delta && (IsReward(kind) <==> delta.locked == 0 && Gain(delta) > 0)
      && (IsReward(kind) ==> e.flow == Credit)
    case MarkedKey(_, _, _, _, kind, _) => !IsReward(kind)
  }

  /** Each kind by its own condition, independent of the order in which the code asks. */
  ghost predicate KindTells(kind: Kind, address: string, delta: Amounts, before: string, after: string, block: Block) {
    && (kind == InvitationLocked <==> delta.locked > 0)
    && (kind == InvitationReversal <==> delta.locked < 0 && (after in {"Killed", "Undefined"} || delta.stake < 0))
    && (kind == InvitationUnlock <==> delta.locked < 0 && after !in {"Killed", "Undefined"} && delta.stake >= 0)
    && (kind == SessionReward <==> delta.locked == 0 && delta.balance + delta.stake > 0 && block.validationFinished)
    && (kind == ProposerReward <==>
          delta.locked == 0 && delta.balance + delta.stake > 0 && !block.validationFinished && address == block.coinbase)
    && (kind == CommitteeReward <==>
          delta.locked == 0 && delta.balance + delta.stake > 0 && !block.validationFinished && address != block.coinbase)
    && (kind == BalanceReversal <==> delta.locked == 0 && delta.balance + delta.stake < 0)
    && (kind == StateChange <==> delta.locked == 0 && delta.balance + delta.stake == 0 && before != after)
    && (kind == AttributeChange <==> delta.locked == 0 && delta.balance + delta.stake == 0 && before == after)
    && kind != GapNetChange && kind != SameHeightCorrection
  }

  lemma KindIff(kind: Kind, address: string, delta: Amounts, before: string, after: string, block: Block)
    ensures KindTells(kind, address, delta, before, after, block) <==> kind == KindOf(address, delta, before, after, block)
  {
  }

  ghost predicate AllHonest(w: World) {
    forall k | k in w.events :: w.events[k].key == k && Honest(w.events[k])
  }

  lemma NotesAreHonest(w: World, epoch: nat, block: Block, i: Listed, seen: Observation, address: string)
    ensures var note := SeedNote(w, epoch, block, i); note.Some? ==> Honest(note.value)
    ensures var note := ScanNote(w, epoch, block, seen, address); note.Some? ==> Honest(note.value)
  {
    hide KindOf;
    if address in w.positions {
      var was := w.positions[address].seen;
      var delta := seen.amounts.Minus(was.amounts);
      KindIff(KindOf(address, delta, was.state, seen.state, block), address, delta, was.state, seen.state, block);
    }
  }

  lemma {:induction false} SeedIsHonest(w: World, epoch: nat, block: Block, pending: seq<Listed>)
    requires AllHonest(w)
    ensures AllHonest(SeedAll(w, epoch, block, pending))
    decreases |pending|
  {
    hide Honest, SeedOne, SeedNote, Accounts;
    if pending != [] {
      var front, i := pending[..|pending| - 1], pending[|pending| - 1];
      SeedIsHonest(w, epoch, block, front);
      SeedNoted(SeedAll(w, epoch, block, front), epoch, block, i);
      NotesAreHonest(SeedAll(w, epoch, block, front), epoch, block, i, i.seen, i.address);
    }
  }

  lemma {:induction false} ScanIsHonest(w: World, epoch: nat, block: Block, answers: map<string, Observation>, order: seq<string>)
    requires AllHonest(w)
    ensures AllHonest(ScanAll(w, epoch, block, answers, order))
    decreases |order|
  {
    hide Honest, ScanNote, Accounts;
    if order != [] {
      var front, address := order[..|order| - 1], order[|order| - 1];
      ScanIsHonest(w, epoch, block, answers, front);
      if address in answers {
        var now := ScanAll(w, epoch, block, answers, front);
        ScanNoted(now, epoch, block, answers, address);
        NotesAreHonest(now, epoch, block, Listed(address, answers[address], 0), answers[address], address);
        hide ScanOne;
      }
    }
  }

  lemma OnceIsHonest(w: World, s: Scan, next: World)
    requires AllHonest(w) && Once(w, s, next)
    ensures AllHonest(next)
  {
    hide Honest, SeedAll, Pending, ScanAll, GapNoted, Addresses;
    if s.epoch !in w.seeded && !s.listing.NotListed? {
      SeedIsHonest(w, s.epoch, s.block, Pending(s.listing.listed));
    }
    if s.epoch in w.seeded || s.listing.Stored? {
      var ready := Seeded(w, s);
      if ready.cursor < s.block.height {
        var gaps, order :| GapNoted(ready.gaps, ready.cursor, s.block.height, gaps) && LiveScan(ready.(gaps := gaps), s, order, next);
        if !s.reading.Deferred? {
          ScanIsHonest(ready.(gaps := gaps), s.epoch, s.block, s.reading.answers, order);
        }
      }
    }
  }

  /** In any run an event has a reward kind exactly when it is keyed by a difference in which balance and stake grew
      together and the locked stake did not change; net changes across a gap and corrections at one height never
      count as rewards. */
  lemma {:induction false} RewardsAreGains(worlds: seq<World>, scans: seq<Scan>, i: nat)
    requires IsRun(worlds, scans) && i < |worlds|
    ensures AllHonest(worlds[i])
    decreases i
  {
    hide Once;
    if i > 0 {
      hide AllHonest;
      RewardsAreGains(worlds, scans, i - 1);
      OnceIsHonest(worlds[i - 1], scans[i - 1], worlds[i - 1 + 1]);
    }
  }
}
