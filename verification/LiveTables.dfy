/**
 The live indexer as the source runs it: the loops of seeding and scanning over the
 stored tables, and one polling round. Each method is tied to `LiveModel`.
 */
module LiveTables {
  import opened ByteStrings
  import opened CoverageGaps
  import opened LiveModel

  lemma PendingSnoc(listed: seq<Listed>, i: Listed)
    ensures Pending(listed + [i]) == if IsPending(i) then Pending(listed) + [i] else Pending(listed)
  {
    hide IsPending;
    assert (listed + [i])[..|listed|] == listed;
  }

  lemma SeedAllSnoc(w: World, epoch: nat, block: Block, pending: seq<Listed>, i: Listed)
    ensures SeedAll(w, epoch, block, pending + [i]) == SeedOne(SeedAll(w, epoch, block, pending), epoch, block, i)
  {
    hide SeedOne;
    assert (pending + [i])[..|pending|] == pending;
  }

  lemma ScanAllSnoc(w: World, epoch: nat, block: Block, answers: map<string, Observation>, order: seq<string>, address: string)
    ensures ScanAll(w, epoch, block, answers, order + [address])
         == ScanOne(ScanAll(w, epoch, block, answers, order), epoch, block, answers, address)
  {
    hide ScanOne;
    assert (order + [address])[..|order|] == order;
  }

  /** All other positions stay, every event stays as it was, and so do cursor, gaps and seeded epochs. */
  ghost predicate KeepsOthers(before: World, after: World, address: string) {
    && before.positions.Keys - {address} == after.positions.Keys - {address}
    && (forall a | a in before.positions && a in after.positions && a != address :: after.positions[a] == before.positions[a])
    && (forall k | k in before.events :: k in after.events && after.events[k] == before.events[k])
    && after.cursor == before.cursor && after.gaps == before.gaps && after.seeded == before.seeded
  }

  class RewardIndexer {
    var positions: map<string, Position>
    var events: map<EventKey, Event>
    var seeded: set<nat>
    var cursor: nat
    const coverage: GapTable
    ghost var first: map<string, Amounts>
    ghost var processed: set<nat>
    ghost var lost: map<string, Amounts>

    ghost function View(): World
      reads this, coverage
    {
      World(positions, events, seeded, cursor, coverage.gaps, first, processed, lost)
    }

    constructor ()
      ensures View() == FRESH && fresh(coverage)
    {
      positions, events, seeded, cursor := map[], map[], {}, 0;
      first, processed, lost := map[], {}, map[];
      coverage := new GapTable();
    }

    /** Insert or ignore the event, then store the position. */
    method Save(address: string, p: Position, note: Option<Event>)
      modifies this
      ensures View() == Store(old(View()), address, p, note)
      ensures KeepsOthers(old(View()), View(), address) && positions[address] == p && address in positions
      ensures events.Keys == old(events).Keys + (if note.Some? then {note.value.key} else {})
    {
      if note.Some? {
        var event := note.value;
        if event.key !in events {
          events := events[event.key := event];
        } else {
          lost := lost[address := Lost(View(), address).Plus(event.delta)];
        }
      }
      if address !in positions {
        first := first[address := p.seen.amounts];
      }
      positions := positions[address := p];
    }

    /** `seed_current_positions`: the listing is filtered, then compared with the stored positions one by one. */
    method SeedCurrentPositions(epoch: nat, block: Block, listed: seq<Listed>)
      modifies this
      ensures View() == SeedAll(old(View()), epoch, block, Pending(listed))
    {
      hide SeedAll, Pending, Store;
      var pending := PendingOf(listed);
      ghost var start := View();
      SeedAllEmpty(start, epoch, block);
      for k := 0 to |pending|
        invariant View() == SeedAll(start, epoch, block, pending[..k])
      {
        assert pending[..k + 1] == pending[..k] + [pending[k]];
        SeedAllSnoc(start, epoch, block, pending[..k], pending[k]);
        var i := pending[k];
        var p := Position(epoch, i.seen, block.height);
        if i.address !in positions {
          Save(i.address, p, None);
        } else {
          var was := positions[i.address].seen;
          if i.seen.amounts.Minus(was.amounts) != ZERO || was.state != i.seen.state {
            var event := EventFrom(Resync, i.address, epoch, block, was, i.seen);
            Save(i.address, p, Some(Marked(event, GapNetChange)));
          } else {
            Save(i.address, p, None);
          }
        }
      }
      assert pending[..|pending|] == pending;
    }

    /** One address of a live scan. */
    method ScanAddress(epoch: nat, block: Block, answers: map<string, Observation>, address: string)
      modifies this
      ensures View() == ScanOne(old(View()), epoch, block, answers, address)
      ensures KeepsOthers(old(View()), View(), address)
      ensures forall k | k in events && k !in old(events) ::
                k.source == LiveDelta && k.address == address && k.epoch == epoch && k.height == block.height
      ensures if address in answers then address in positions && positions[address] == Position(epoch, answers[address], block.height)
              else View() == old(View())
    {
      hide Store, KindOf, FlowOf;
      if address !in answers {
        return;
      }
      var seen := answers[address];
      var p := Position(epoch, seen, block.height);
      if address !in positions {
        Save(address, p, None);
        return;
      }
      var stored := positions[address];
      var was := stored.seen;
      if seen.amounts.Minus(was.amounts) != ZERO || was.state != seen.state || was.delegatee != seen.delegatee {
        var event := EventFrom(LiveDelta, address, epoch, block, was, seen);
        if stored.updatedHeight == block.height {
          event := Marked(event, SameHeightCorrection);
        }
        Save(address, p, Some(event));
      } else {
        Save(address, p, None);
      }
    }

    /** The loop of `process_block_live` over these addresses, each once. */
    method ScanAddresses(epoch: nat, block: Block, answers: map<string, Observation>, addresses: set<string>) returns (ghost order: seq<string>)
      modifies this
      ensures Distinct(order) && View() == ScanAll(old(View()), epoch, block, answers, order)
      ensures forall a :: a in order <==> a in addresses
    {
      hide ScanAll, ScanOne;
      ghost var start := View();
      var left := addresses;
      order := [];
      ScanAllEmpty(start, epoch, block, answers);
      while left != {}
        invariant left <= addresses && Distinct(order)
        invariant forall a :: a in order <==> a in addresses && a !in left
        invariant View() == ScanAll(start, epoch, block, answers, order)
        decreases left
      {
        var address :| address in left;
        ScanAllSnoc(start, epoch, block, answers, order, address);
        ScanAddress(epoch, block, answers, address);
        order, left := order + [address], left - {address};
      }
    }

    /** One polling round. */
    method Once(s: Scan)
      requires Tidy(coverage.gaps)
      modifies this, coverage
      ensures Tidy(coverage.gaps) && LiveModel.Once(old(View()), s, View())
    {
      hide SeedAll, Pending, ScanAll, Addresses, Tidy, Recorded, InGap;
      ghost var start := View();
      if s.epoch !in seeded {
        if s.listing.NotListed? {
          return;
        }
        SeedCurrentPositions(s.epoch, s.block, s.listing.listed);
        assert coverage.gaps == start.gaps && cursor == start.cursor && seeded == start.seeded
          by { SeedElsewhere(start, s.epoch, s.block, Pending(s.listing.listed)); }
        if s.listing.StoredInPart? {
          return;
        }
        seeded := seeded + {s.epoch};
      }
      ghost var ready := View();
      assert ready == Seeded(start, s);
      if cursor >= s.block.height {
        return;
      }
      if cursor != 0 && s.block.height > cursor + 1 {
        coverage.RecordGap(cursor + 1, s.block.height - 1, GAP_REASON);
      }
      ghost var noted := View();
      assert GapNoted(ready.gaps, ready.cursor, s.block.height, noted.gaps) && noted == ready.(gaps := noted.gaps);
      ghost var order: seq<string> := [];
      match s.reading {
        case Deferred =>
        case Read(answers) =>
          order := ScanAddresses(s.epoch, s.block, answers, Addresses(positions, s.block));
          cursor := s.block.height;
          processed := processed + {s.block.height};
        case ReadInPart(answers, reached) =>
          order := ScanAddresses(s.epoch, s.block, answers, Addresses(positions, s.block) * reached);
      }
      assert LiveScan(noted, s, order, View());
    }
  }

  method PendingOf(listed: seq<Listed>) returns (pending: seq<Listed>)
    ensures pending == Pending(listed)
  {
    hide Pending, IsPending;
    pending := [];
    PendingEmpty();
    for k := 0 to |listed|
      invariant pending == Pending(listed[..k])
    {
      assert listed[..k + 1] == listed[..k] + [listed[k]];
      PendingSnoc(listed[..k], listed[k]);
      if IsPending(listed[k]) {
        pending := pending + [listed[k]];
      }
    }
    assert listed[..|listed|] == listed;
  }

  lemma PendingEmpty()
    ensures Pending([]) == []
  {
  }

  lemma SeedAllEmpty(w: World, epoch: nat, block: Block)
    ensures SeedAll(w, epoch, block, []) == w
  {
  }

  lemma ScanAllEmpty(w: World, epoch: nat, block: Block, answers: map<string, Observation>)
    ensures ScanAll(w, epoch, block, answers, []) == w
  {
  }

  lemma {:induction false} SeedElsewhere(w: World, epoch: nat, block: Block, pending: seq<Listed>)
    ensures var next := SeedAll(w, epoch, block, pending);
            next.gaps == w.gaps && next.cursor == w.cursor && next.seeded == w.seeded
    decreases |pending|
  {
    hide KindOf, FlowOf;
    if pending != [] {
      SeedElsewhere(w, epoch, block, pending[..|pending| - 1]);
    }
  }
}
