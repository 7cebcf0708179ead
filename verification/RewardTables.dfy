/**
 The reward tables as the source updates them: grouping by epoch, the loop over epochs
 with its deletions and inserts, reconciliation, the rebuild of the liabilities, and a
 savepoint that undoes all of it. Every method is tied to the functions of
 `RewardImports` and `Liabilities`.
 */
module RewardTables {
  import opened ByteStrings
  import opened RewardRows
  import opened Liabilities
  import opened RewardImports
  import opened Listings

  // ------------------------------------------------------------- some of the epochs

  function OfEpoch(events: seq<RawEvent>, epoch: nat): seq<RawEvent> {
    if events == [] then []
    else
      var front, last := OfEpoch(events[..|events| - 1], epoch), events[|events| - 1];
      if last.epoch == epoch then front + [last] else front
  }

  function TouchedIn(events: seq<RawEvent>): set<nat> {
    set i | 0 <= i < |events| :: events[i].epoch
  }

  function Ids(source: string, events: seq<RawEvent>): set<EventId> {
    set i | 0 <= i < |events| :: IdOf(source, events[i])
  }

  lemma {:induction false} FirstInSnoc(source: string, events: seq<RawEvent>, e: RawEvent, id: EventId)
    ensures FirstIn(source, events + [e], id)
         == if FirstIn(source, events, id).Some? then FirstIn(source, events, id)
            else if IdOf(source, e) == id then Some(ToRow(source, e)) else None
    decreases |events|
  {
    hide IdOf, ToRow;
    if events == [] {
      assert events + [e] == [e] && [e][1..] == [];
    } else {
      assert (events + [e])[1..] == events[1..] + [e];
      FirstInSnoc(source, events[1..], e, id);
    }
  }

  /** The first event with an id is the first of its epoch with that id. */
  lemma {:induction false} FirstOfEpoch(source: string, events: seq<RawEvent>, epoch: nat, id: EventId)
    requires id.ExactId? && id.epoch == epoch
    ensures FirstIn(source, OfEpoch(events, epoch), id) == FirstIn(source, events, id)
    decreases |events|
  {
    if events != [] {
      hide FirstIn;
      var front, last := events[..|events| - 1], events[|events| - 1];
      assert events == front + [last];
      FirstOfEpoch(source, front, epoch, id);
      FirstInSnoc(source, front, last, id);
      FirstInSnoc(source, OfEpoch(front, epoch), last, id);
    }
  }

  lemma {:induction false} OfEpochIds(source: string, events: seq<RawEvent>, epoch: nat, id: EventId)
    ensures id in Ids(source, OfEpoch(events, epoch)) <==>
              id.ExactId? && id.epoch == epoch && id in Ids(source, events)
    decreases |events|
  {
    if events != [] {
      var front, last := events[..|events| - 1], events[|events| - 1];
      OfEpochIds(source, front, epoch, id);
      IdsSnoc(source, front, last);
      IdsSnoc(source, OfEpoch(front, epoch), last);
      assert events == front + [last];
    }
  }

  lemma IdsSnoc(source: string, events: seq<RawEvent>, e: RawEvent)
    ensures Ids(source, events + [e]) == Ids(source, events) + {IdOf(source, e)}
  {
    hide IdOf;
    var all := events + [e];
    assert forall i | 0 <= i < |events| :: all[i] == events[i];
    assert all[|events|] == e;
    assert IdOf(source, all[|events|]) in Ids(source, all);
    forall id | id in Ids(source, events) ensures id in Ids(source, all) {
      var i :| 0 <= i < |events| && IdOf(source, events[i]) == id;
      assert IdOf(source, all[i]) in Ids(source, all);
    }
  }

  function KeptTo(l: Ledger, imp: Import, done: set<nat>): Rows {
    map id | id in l.rows && !(l.rows[id].epoch in done && GivesWay(l.registry, imp, l.rows[id])) :: l.rows[id]
  }

  function InsertedTo(registry: Registry, imp: Import, done: set<nat>): set<EventId> {
    set i | 0 <= i < |imp.events| && imp.events[i].epoch in done && Wins(registry, imp, imp.events[i].epoch) ::
      IdOf(imp.source, imp.events[i])
  }

  /** The tables when these epochs of the import have been dealt with. */
  function MergedTo(l: Ledger, imp: Import, done: set<nat>): Ledger {
    var kept := KeptTo(l, imp, done);
    Ledger(
      map id | id in kept.Keys + InsertedTo(l.registry, imp, done) :: if id in kept then kept[id] else FirstRow(imp, id),
      map epoch | epoch in l.registry.Keys + done && (epoch in l.registry || Wins(l.registry, imp, epoch)) ::
        if epoch in done && Wins(l.registry, imp, epoch) then RankOf(imp) else l.registry[epoch])
  }

  lemma NothingMerged(l: Ledger, imp: Import)
    ensures MergedTo(l, imp, {}) == l
    ensures KeptTo(l, imp, {}) == l.rows
  {
    hide Wins;
    assert InsertedTo(l.registry, imp, {}) == {};
  }

  lemma AllKept(l: Ledger, imp: Import)
    ensures KeptTo(l, imp, Touched(imp)) == Kept(l, imp)
  {
    hide RankLess;
  }

  lemma AllInserted(registry: Registry, imp: Import)
    ensures InsertedTo(registry, imp, Touched(imp)) == Inserted(registry, imp)
  {
    hide Wins, IdOf;
    assert forall i | 0 <= i < |imp.events| :: imp.events[i].epoch in Touched(imp);
  }

  lemma AllMerged(l: Ledger, imp: Import)
    ensures MergedTo(l, imp, Touched(imp)) == Merged(l, imp)
    ensures KeptTo(l, imp, Touched(imp)) == Kept(l, imp)
  {
    hide Kept, KeptTo, Inserted, InsertedTo, RankLess;
    AllKept(l, imp);
    AllInserted(l.registry, imp);
    forall epoch: nat | Wins(l.registry, imp, epoch) ensures epoch in Touched(imp) {
      TouchedIff(imp, epoch);
    }
  }

  /** What taking over an epoch deletes. */
  function Ousted(rows: Rows, source: string, epoch: nat): set<EventId> {
    set id | id in rows && rows[id].exact && rows[id].epoch == epoch && rows[id].source != source
  }

  /** An epoch that is not won changes nothing. */
  lemma LostStep(l: Ledger, imp: Import, done: set<nat>, epoch: nat)
    requires !Wins(l.registry, imp, epoch)
    ensures MergedTo(l, imp, done + {epoch}) == MergedTo(l, imp, done)
    ensures KeptTo(l, imp, done + {epoch}) == KeptTo(l, imp, done)
  {
    hide Wins, KeptTo, InsertedTo;
    LostKept(l, imp, done, epoch);
    LostInserted(l.registry, imp, done, epoch);
  }

  lemma LostKept(l: Ledger, imp: Import, done: set<nat>, epoch: nat)
    requires !Wins(l.registry, imp, epoch)
    ensures KeptTo(l, imp, done + {epoch}) == KeptTo(l, imp, done)
  {
    hide Wins;
  }

  lemma LostInserted(registry: Registry, imp: Import, done: set<nat>, epoch: nat)
    requires !Wins(registry, imp, epoch)
    ensures InsertedTo(registry, imp, done + {epoch}) == InsertedTo(registry, imp, done)
  {
    hide Wins, IdOf;
  }

  /** The rows of an epoch that is still to come are the rows it had. */
  lemma UntouchedEpoch(l: Ledger, imp: Import, done: set<nat>, epoch: nat)
    requires WellKeyed(l.rows) && epoch !in done
    ensures Ousted(MergedTo(l, imp, done).rows, imp.source, epoch) == Ousted(l.rows, imp.source, epoch)
    ensures Ousted(l.rows, imp.source, epoch) <= KeptTo(l, imp, done).Keys
  {
    hide Wins;
    var rows := MergedTo(l, imp, done).rows;
    forall id | id in rows && id !in KeptTo(l, imp, done) ensures rows[id].epoch in done {
      var i :| 0 <= i < |imp.events| && imp.events[i].epoch in done && IdOf(imp.source, imp.events[i]) == id;
      assert id.epoch in done;
    }
  }

  lemma WonKept(l: Ledger, imp: Import, done: set<nat>, epoch: nat)
    requires Wins(l.registry, imp, epoch)
    ensures KeptTo(l, imp, done + {epoch}) == KeptTo(l, imp, done) - Ousted(l.rows, imp.source, epoch)
  {
    hide Wins;
  }

  lemma InsertedToIff(registry: Registry, imp: Import, done: set<nat>, id: EventId)
    ensures id in InsertedTo(registry, imp, done) <==>
              id.ExactId? && id.epoch in done && id in Ids(imp.source, imp.events) && Wins(registry, imp, id.epoch)
  {
    hide Wins;
  }

  /** The rows after an epoch that is won: the rows of other sources deleted, its events inserted or ignored. */
  lemma WonStep(l: Ledger, imp: Import, done: set<nat>, epoch: nat, rows: Rows)
    requires WellKeyed(l.rows) && epoch !in done && Wins(l.registry, imp, epoch)
    requires WithEvents(MergedTo(l, imp, done).rows - Ousted(l.rows, imp.source, epoch), imp.source, OfEpoch(imp.events, epoch), rows)
    ensures MergedTo(l, imp, done + {epoch}).rows == rows
    ensures MergedTo(l, imp, done + {epoch}).registry == MergedTo(l, imp, done).registry[epoch := RankOf(imp)]
  {
    hide Wins, MergedTo, OfEpoch, WellKeyed, WithEvents;
    forall id
      ensures id in rows <==> id in MergedTo(l, imp, done + {epoch}).rows
      ensures id in rows ==> rows[id] == MergedTo(l, imp, done + {epoch}).rows[id]
    {
      WonRow(l, imp, done, epoch, rows, id);
    }
    WonRegistry(l, imp, done, epoch);
  }

  lemma WonRegistry(l: Ledger, imp: Import, done: set<nat>, epoch: nat)
    requires Wins(l.registry, imp, epoch)
    ensures MergedTo(l, imp, done + {epoch}).registry == MergedTo(l, imp, done).registry[epoch := RankOf(imp)]
  {
    hide Wins, InsertedTo, KeptTo;
  }

  lemma MergedToRow(l: Ledger, imp: Import, done: set<nat>, id: EventId)
    ensures id in MergedTo(l, imp, done).rows <==> id in KeptTo(l, imp, done) || id in InsertedTo(l.registry, imp, done)
    ensures id in KeptTo(l, imp, done) ==> MergedTo(l, imp, done).rows[id] == l.rows[id]
    ensures id in MergedTo(l, imp, done).rows && id !in KeptTo(l, imp, done) ==>
              Some(MergedTo(l, imp, done).rows[id]) == FirstIn(imp.source, imp.events, id)
  {
    hide Wins, IdOf, ToRow;
  }

  lemma WonRow(l: Ledger, imp: Import, done: set<nat>, epoch: nat, rows: Rows, id: EventId)
    requires WellKeyed(l.rows) && epoch !in done && Wins(l.registry, imp, epoch)
    requires WithEvents(MergedTo(l, imp, done).rows - Ousted(l.rows, imp.source, epoch), imp.source, OfEpoch(imp.events, epoch), rows)
    ensures id in rows <==> id in MergedTo(l, imp, done + {epoch}).rows
    ensures id in rows ==> rows[id] == MergedTo(l, imp, done + {epoch}).rows[id]
  {
    hide Wins, MergedTo, InsertedTo, KeptTo, OfEpoch, Ids, FirstIn, IdOf, WellKeyed, Ousted;
    WonKept(l, imp, done, epoch);
    UntouchedEpoch(l, imp, done, epoch);
    MergedToRow(l, imp, done, id);
    MergedToRow(l, imp, done + {epoch}, id);
    InsertedToIff(l.registry, imp, done, id);
    InsertedToIff(l.registry, imp, done + {epoch}, id);
    OfEpochIds(imp.source, imp.events, epoch, id);
    OustedElsewhere(l, imp, epoch, id);
    if id.ExactId? && id.epoch == epoch {
      FirstOfEpoch(imp.source, imp.events, epoch, id);
    }
  }

  /** A deleted id is not one the import inserts. */
  lemma OustedElsewhere(l: Ledger, imp: Import, epoch: nat, id: EventId)
    requires WellKeyed(l.rows)
    ensures id in Ousted(l.rows, imp.source, epoch) ==> id !in Ids(imp.source, imp.events)
  {
  }

  /** The table with these events inserted, an event whose id is taken being ignored. */
  ghost predicate WithEvents(table: Rows, source: string, events: seq<RawEvent>, result: Rows) {
    && result.Keys == table.Keys + Ids(source, events)
    && (forall id | id in table :: result[id] == table[id])
    && (forall id | id in result && id !in table :: Some(result[id]) == FirstIn(source, events, id))
  }

  lemma WithEventsStep(table: Rows, source: string, events: seq<RawEvent>, e: RawEvent, rows: Rows, next: Rows)
    requires WithEvents(table, source, events, rows)
    requires next == if IdOf(source, e) in rows then rows else rows[IdOf(source, e) := ToRow(source, e)]
    ensures WithEvents(table, source, events + [e], next)
  {
    hide IdOf, ToRow, Ids, FirstIn;
    IdsSnoc(source, events, e);
    forall id | id in next && id !in table ensures Some(next[id]) == FirstIn(source, events + [e], id) {
      FirstInSnoc(source, events, e, id);
      FirstInIds(source, events, id);
    }
  }

  lemma FirstInIds(source: string, events: seq<RawEvent>, id: EventId)
    ensures FirstIn(source, events, id).Some? <==> id in Ids(source, events)
  {
    hide IdOf;
  }

  ghost predicate IsLeast(epochs: set<nat>, e: nat) {
    e in epochs && forall other | other in epochs :: e <= other
  }

  lemma LeastIsMember(epochs: set<nat>, e: nat)
    requires IsLeast(epochs, e)
    ensures e in epochs
  {
  }

  method LeastEpoch(epochs: set<nat>) returns (least: nat)
    requires epochs != {}
    ensures IsLeast(epochs, least)
  {
    least :| least in epochs;
    var left := epochs - {least};
    while left != {}
      invariant left <= epochs && IsLeast(epochs - left, least)
      decreases left
    {
      var epoch :| epoch in left;
      assert epochs - (left - {epoch}) == (epochs - left) + {epoch};
      if epoch < least {
        least := epoch;
      }
      left := left - {epoch};
    }
    assert epochs - left == epochs;
  }

  // -------------------------------------------------------------- the liabilities

  /** The rows the liabilities are rebuilt from. */
  function Invitees(l: Ledger): set<EventId> {
    set id | id in l.rows && CanonicalInvitee(l, l.rows[id])
  }

  /** The order of the rebuild: height, then id. */
  function ByHeight(rows: Rows, idOrder: Order<EventId>): Order<EventId> {
    (a, b) => a in rows && b in rows && (rows[a].height < rows[b].height || (rows[a].height == rows[b].height && idOrder(a, b)))
  }

  lemma ByHeightOrders(rows: Rows, idOrder: Order<EventId>, ids: set<EventId>)
    requires IsOrder(idOrder) && ids <= rows.Keys
    ensures Orders(ByHeight(rows, idOrder), ids)
  {
  }

  function RowsAt(rows: Rows, listed: seq<EventId>): seq<Row>
    requires forall id | id in listed :: id in rows
  {
    seq(|listed|, i requires 0 <= i < |listed| => assert listed[i] in listed; rows[listed[i]])
  }

  predicate CanonicalRow(l: Ledger, row: Row) {
    row.exact && row.epoch in l.registry && l.registry[row.epoch].source == row.source
  }

  /** The greatest epoch of a canonical row, or zero. */
  ghost predicate IsMaxEpoch(l: Ledger, m: nat) {
    && (forall id | id in l.rows && CanonicalRow(l, l.rows[id]) :: l.rows[id].epoch <= m)
    && (m == 0 || exists id :: id in l.rows && CanonicalRow(l, l.rows[id]) && l.rows[id].epoch == m)
  }

  /** The liabilities table after a rebuild from the rows of the ledger. */
  ghost predicate RebuiltFrom(idOrder: Order<EventId>, l: Ledger, before: map<Key, Stored>, after: map<Key, Stored>) {
    exists listed, m: nat ::
      Lists(listed, Invitees(l), ByHeight(l.rows, idOrder)) && IsMaxEpoch(l, m) && RebuiltAs(l.rows, listed, m, before, after)
  }

  ghost predicate RebuiltAs(rows: Rows, listed: seq<EventId>, m: nat, before: map<Key, Stored>, after: map<Key, Stored>) {
    && (forall id | id in listed :: id in rows)
    && var folded := FoldRows(RowsAt(rows, listed), m);
       folded.Books? && after == Refreshed(before, folded.book, folded.maxEpoch)
  }

  lemma RowsAtHas(rows: Rows, listed: seq<EventId>, row: Row)
    requires forall id | id in listed :: id in rows
    ensures row in RowsAt(rows, listed) <==> exists id :: id in listed && rows[id] == row
  {
    if row in RowsAt(rows, listed) {
      var i :| 0 <= i < |listed| && RowsAt(rows, listed)[i] == row;
      assert listed[i] in listed && rows[listed[i]] == row;
    }
    if id :| id in listed && rows[id] == row {
      var i :| 0 <= i < |listed| && listed[i] == id;
      assert RowsAt(rows, listed)[i] == row;
    }
  }

  lemma MaxEpochIsUnique(l: Ledger, m: nat, n: nat)
    requires IsMaxEpoch(l, m) && IsMaxEpoch(l, n)
    ensures m == n
  {
    hide CanonicalRow;
  }

  /** The rebuilt table is determined by the ledger and the table before. */
  lemma RebuiltIsUnique(idOrder: Order<EventId>, l: Ledger, before: map<Key, Stored>, t: map<Key, Stored>, u: map<Key, Stored>)
    requires IsOrder(idOrder) && RebuiltFrom(idOrder, l, before, t) && RebuiltFrom(idOrder, l, before, u)
    ensures t == u
  {
    hide IsMaxEpoch, RebuiltAs, IsOrder, Lists, Orders, ByHeight;
    var order, ids := ByHeight(l.rows, idOrder), Invitees(l);
    var a, m: nat :| Lists(a, ids, order) && IsMaxEpoch(l, m) && RebuiltAs(l.rows, a, m, before, t);
    var b, n: nat :| Lists(b, ids, order) && IsMaxEpoch(l, n) && RebuiltAs(l.rows, b, n, before, u);
    ByHeightOrders(l.rows, idOrder, ids);
    ListingIsUnique(a, b, ids, order);
    MaxEpochIsUnique(l, m, n);
    SameRebuild(l.rows, a, m, before, t, u);
  }

  lemma SameRebuild(rows: Rows, listed: seq<EventId>, m: nat, before: map<Key, Stored>, t: map<Key, Stored>, u: map<Key, Stored>)
    requires RebuiltAs(rows, listed, m, before, t) && RebuiltAs(rows, listed, m, before, u)
    ensures t == u
  {
    hide FoldRows, Refreshed, RowsAt;
  }

  /** The table is what a rebuild from the ledger alone gives. */
  ghost predicate Settled(idOrder: Order<EventId>, l: Ledger, table: map<Key, Stored>) {
    RebuiltFrom(idOrder, l, map[], table)
  }

  /** From a table without inferred rows, a rebuild leaves what the ledger alone gives. */
  lemma RebuiltIsSettled(idOrder: Order<EventId>, l: Ledger, before: map<Key, Stored>, after: map<Key, Stored>)
    requires RebuiltFrom(idOrder, l, before, after) && forall key | key in before :: before[key].exact
    ensures Settled(idOrder, l, after) && forall key | key in after :: after[key].exact
  {
    hide IsMaxEpoch, FoldRows, Refreshed, Lists, ByHeight, RowsAt;
    var listed, m: nat :|
      Lists(listed, Invitees(l), ByHeight(l.rows, idOrder)) && IsMaxEpoch(l, m) && RebuiltAs(l.rows, listed, m, before, after);
    var folded := FoldRows(RowsAt(l.rows, listed), m);
    RefreshForgets(before, folded.book, folded.maxEpoch);
    assert RebuiltAs(l.rows, listed, m, map[], after);
  }

  lemma EmptyIsSettled(idOrder: Order<EventId>)
    ensures Settled(idOrder, EMPTY, map[])
  {
    assert Invitees(EMPTY) == {};
    assert Lists([], Invitees(EMPTY), ByHeight(EMPTY.rows, idOrder)) && IsMaxEpoch(EMPTY, 0);
    assert RowsAt(EMPTY.rows, []) == [];
    assert RebuiltAs(EMPTY.rows, [], 0, map[], map[]);
  }

  method CanonicalMaxEpoch(l: Ledger) returns (m: nat)
    ensures IsMaxEpoch(l, m)
  {
    hide CanonicalRow;
    m := 0;
    var left := l.rows.Keys;
    while left != {}
      invariant left <= l.rows.Keys
      invariant forall id | id in l.rows.Keys - left && CanonicalRow(l, l.rows[id]) :: l.rows[id].epoch <= m
      invariant m == 0 || exists id :: id in l.rows && CanonicalRow(l, l.rows[id]) && l.rows[id].epoch == m
      decreases left
    {
      var id :| id in left;
      if CanonicalRow(l, l.rows[id]) && l.rows[id].epoch > m {
        m := l.rows[id].epoch;
      }
      left := left - {id};
    }
  }

  // ------------------------------------------------------------------- the tables

  method GroupByEpoch(events: seq<RawEvent>) returns (groups: map<nat, seq<RawEvent>>)
    ensures groups.Keys == TouchedIn(events)
    ensures forall epoch | epoch in groups :: groups[epoch] == OfEpoch(events, epoch)
  {
    groups := map[];
    for i := 0 to |events|
      invariant groups.Keys == TouchedIn(events[..i])
      invariant forall epoch | epoch in groups :: groups[epoch] == OfEpoch(events[..i], epoch)
    {
      assert events[..i + 1][..i] == events[..i];
      assert events[..i + 1] == events[..i] + [events[i]];
      TouchedSnoc(events[..i], events[i]);
      var epoch := events[i].epoch;
      if epoch !in groups {
        NoneOfEpoch(events[..i], epoch);
      }
      groups := groups[epoch := (if epoch in groups then groups[epoch] else []) + [events[i]]];
    }
    assert events[..|events|] == events;
  }

  lemma TouchedSnoc(events: seq<RawEvent>, e: RawEvent)
    ensures TouchedIn(events + [e]) == TouchedIn(events) + {e.epoch}
  {
    var all := events + [e];
    assert forall i | 0 <= i < |events| :: all[i] == events[i];
    assert all[|events|] == e;
    assert all[|events|].epoch in TouchedIn(all);
    forall epoch | epoch in TouchedIn(events) ensures epoch in TouchedIn(all) {
      var i :| 0 <= i < |events| && events[i].epoch == epoch;
      assert all[i].epoch in TouchedIn(all);
    }
  }

  lemma {:induction false} NoneOfEpoch(events: seq<RawEvent>, epoch: nat)
    requires epoch !in TouchedIn(events)
    ensures OfEpoch(events, epoch) == []
    decreases |events|
  {
    if events != [] {
      var front, last := events[..|events| - 1], events[|events| - 1];
      assert events == front + [last];
      TouchedSnoc(front, last);
      NoneOfEpoch(front, epoch);
    }
  }

  /** The greatest rank among the candidates, found by going through them. */
  method BestSource(candidates: set<string>, previous: Option<Registration>) returns (best: Registration)
    requires candidates != {}
    ensures best == Best(candidates, previous)
  {
    hide RankLess, RankIn, Best;
    var source :| source in candidates;
    ghost var seen := {source};
    var left := candidates - {source};
    RankTotal(RankIn(source, previous), RankIn(source, previous));
    while left != {}
      invariant seen + left == candidates && IsBest(seen, previous, source)
      decreases left
    {
      var one :| one in left;
      BestOfMore(seen, previous, source, one);
      if RankLess(RankIn(source, previous), RankIn(one, previous)) {
        source := one;
      }
      seen, left := seen + {one}, left - {one};
    }
    assert seen == candidates;
    BestIsUnique(candidates, previous, source);
    best := RankIn(source, previous);
  }

  class RewardLedger {
    var rows: Rows
    var registry: Registry
    var liabilities: map<Key, Stored>
    const idOrder: Order<EventId>

    ghost function View(): Ledger
      reads this
    {
      Ledger(rows, registry)
    }

    constructor (idOrder: Order<EventId>)
      ensures this.idOrder == idOrder && View() == EMPTY && Settled(idOrder, View(), liabilities)
      ensures forall key | key in liabilities :: liabilities[key].exact
    {
      EmptyIsSettled(idOrder);
      this.idOrder := idOrder;
      rows, registry, liabilities := map[], map[], map[];
    }

    /** `insert_event`: a row whose id is taken is ignored. */
    method InsertEvent(row: Row) returns (inserted: bool)
      modifies `rows
      ensures inserted <==> row.id !in old(rows)
      ensures rows == if inserted then old(rows)[row.id := row] else old(rows)
    {
      inserted := row.id !in rows;
      if inserted {
        rows := rows[row.id := row];
      }
    }

    method InsertEvents(source: string, events: seq<RawEvent>) returns (added: nat)
      modifies `rows
      ensures WithEvents(old(rows), source, events, rows)
      ensures |rows.Keys| == |old(rows).Keys| + added
    {
      hide WithEvents;
      added := 0;
      NoEvents(rows, source);
      for i := 0 to |events|
        invariant WithEvents(old(rows), source, events[..i], rows)
        invariant |rows.Keys| == |old(rows).Keys| + added
      {
        assert events[..i + 1] == events[..i] + [events[i]];
        ghost var before := rows;
        assert ToRow(source, events[i]).id == IdOf(source, events[i]);
        var inserted := InsertEvent(ToRow(source, events[i]));
        WithEventsStep(old(rows), source, events[..i], events[i], before, rows);
        if inserted {
          assert rows.Keys == before.Keys + {IdOf(source, events[i])};
          added := added + 1;
        }
      }
      assert events[..|events|] == events;
    }

    /** One epoch of an import. */
    method TakeEpoch(imp: Import, epoch: nat, events: seq<RawEvent>, ghost l: Ledger, ghost done: set<nat>) returns (added: nat)
      requires WellKeyed(l.rows) && View() == MergedTo(l, imp, done)
      requires epoch !in done && Touches(imp, epoch) && events == OfEpoch(imp.events, epoch)
      modifies `rows, `registry
      ensures View() == MergedTo(l, imp, done + {epoch})
      ensures |rows.Keys| - |KeptTo(l, imp, done + {epoch}).Keys| == old(|rows.Keys|) - |KeptTo(l, imp, done).Keys| + added
    {
      hide WellKeyed, MergedTo, RankLess, WithEvents, OfEpoch, Touches;
      SameActive(l, imp, done, epoch);
      if epoch in registry && RankLess(RankOf(imp), registry[epoch]) {
        LostStep(l, imp, done, epoch);
        return 0;
      }
      UntouchedEpoch(l, imp, done, epoch);
      WonKept(l, imp, done, epoch);
      var ousted := Ousted(rows, imp.source, epoch);
      OustedCount(rows, KeptTo(l, imp, done), ousted);
      rows := rows - ousted;
      registry := registry[epoch := RankOf(imp)];
      added := InsertEvents(imp.source, events);
      WonStep(l, imp, done, epoch, rows);
    }

    /** The loop over the epochs of an import, in ascending order. */
    method TakeEpochs(imp: Import, groups: map<nat, seq<RawEvent>>) returns (imported: nat)
      requires WellKeyed(rows) && groups.Keys == Touched(imp)
      requires forall epoch | epoch in groups :: groups[epoch] == OfEpoch(imp.events, epoch)
      modifies `rows, `registry
      ensures View() == Merged(old(View()), imp)
      ensures imported == |rows.Keys| - |Kept(old(View()), imp).Keys|
    {
      hide WellKeyed, MergedTo, Merged, Kept, KeptTo, OfEpoch, Touches, Touched, IsLeast;
      ghost var l, done := View(), {};
      NothingMerged(l, imp);
      imported := 0;
      var left := groups.Keys;
      while left != {}
        invariant left <= groups.Keys && done == groups.Keys - left
        invariant View() == MergedTo(l, imp, done)
        invariant imported == |rows.Keys| - |KeptTo(l, imp, done).Keys|
        decreases left
      {
        var epoch := LeastEpoch(left);
        assert epoch in left by { LeastIsMember(left, epoch); }
        TouchedIff(imp, epoch);
        var added := TakeEpoch(imp, epoch, groups[epoch], l, done);
        imported := imported + added;
        done, left := done + {epoch}, left - {epoch};
      }
      assert done == Touched(imp);
      AllMerged(l, imp);
    }

    /** `reconcile_exact_reward_sources`, for all epochs or for some. */
    method Reconcile(selected: Option<set<nat>>)
      modifies `registry
      ensures View() == if selected.None? then old(View()).(registry := FullRegistry(old(View())))
                        else Reconciled(old(View()), selected.value)
    {
      hide Candidates, Best, ExactEpochs;
      if selected == Some({}) {
        return;
      }
      var full := selected.None? || |selected.value| > MAX_LOCAL_RECONCILIATION_EPOCHS;
      var existing := registry;
      var left := if full then ExactEpochs(rows) else ExactEpochs(rows) * selected.value;
      ghost var todo := left;
      registry := if full then map[] else registry - selected.value;
      ghost var start := registry;
      while left != {}
        invariant left <= todo
        invariant registry.Keys == start.Keys + (todo - left)
        invariant forall epoch | epoch in start && epoch !in todo :: registry[epoch] == start[epoch]
        invariant forall epoch | epoch in todo - left :: registry[epoch] == BestAt(old(View()), epoch)
        decreases left
      {
        var epoch :| epoch in left;
        CandidatesIffExact(rows, epoch);
        var best := BestSource(Candidates(rows, epoch), Previous(existing, epoch));
        registry := registry[epoch := best];
        left := left - {epoch};
      }
      if full {
        assert registry == FullRegistry(old(View()));
      } else {
        assert registry == LocalRegistry(old(View()), selected.value);
      }
    }

    /** The rows the liabilities are rebuilt from, in order of height and id. */
    method OrderedInvitees() returns (listed: seq<EventId>)
      requires IsOrder(idOrder)
      ensures Lists(listed, Invitees(View()), ByHeight(rows, idOrder))
    {
      hide Orders, ByHeight, IsOrder;
      var ids := Invitees(Ledger(rows, registry));
      ByHeightOrders(rows, idOrder, ids);
      listed := List(ids, ByHeight(rows, idOrder));
    }

    /** `rebuild_exact_invitation_liabilities`: fails, changing nothing, when a canonical row has a bad field. */
    method RebuildLiabilities() returns (ok: bool)
      requires IsOrder(idOrder)
      modifies `liabilities
      ensures ok <==> !RebuildFails(View())
      ensures if ok then RebuiltFrom(idOrder, View(), old(liabilities), liabilities) else liabilities == old(liabilities)
    {
      hide FoldRows, Refreshed, RebuildFails, IsMaxEpoch, RowsAt, ByHeight, IsOrder;
      var listed := OrderedInvitees();
      assert forall id | id in listed :: id in rows;
      var ordered := RowsAt(rows, listed);
      var m := CanonicalMaxEpoch(Ledger(rows, registry));
      var folded := FoldLoop(ordered, m);
      forall row ensures row in ordered <==> exists id :: id in rows && rows[id] == row && CanonicalInvitee(View(), row) {
        RowsAtHas(rows, listed, row);
      }
      RebuildAborts(View(), ordered, m);
      ok := folded.Books?;
      if ok {
        liabilities := Refresh(liabilities, folded.book, folded.maxEpoch);
        assert RebuiltAs(rows, listed, m, old(liabilities), liabilities);
      }
    }

    /** What an import does between its savepoint and the release or the rollback. */
    method Transact(imp: Import) returns (ok: bool, imported: nat)
      requires WellKeyed(rows) && IsOrder(idOrder)
      modifies this
      ensures WellKeyed(rows) && View() == Imported(old(View()), imp)
      ensures ok <==> !RebuildFails(View())
      ensures ok ==> RebuiltFrom(idOrder, View(), old(liabilities), liabilities)
      ensures imported == |rows.Keys| - |Kept(old(View()).(rows := Deleted(old(rows), imp)), imp).Keys|
    {
      hide WellKeyed, Merged, Kept, Deleted, Reconciled, RebuildFails, RebuiltFrom, Touched, TouchedIn, Affected, OfEpoch, IsOrder;
      var groups := GroupByEpoch(imp.events);
      TouchedIsIn(imp);
      var affected := Affected(Ledger(rows, registry), imp);
      rows := Deleted(rows, imp);
      DeletedWellKeyed(old(rows), imp);
      ghost var start := View();
      imported := TakeEpochs(imp, groups);
      MergedWellKeyed(start, imp);
      Reconcile(Some(affected));
      ReconciledRows(Merged(start, imp), affected);
      ok := RebuildLiabilities();
    }

    /** `import_statscollector_replay_events`, after parsing: the savepoint is the copy of the tables, and an error
        puts it back. The result is the number of rows inserted. */
    method ImportEvents(imp: Import) returns (r: Result<nat, ImportError>)
      requires WellKeyed(rows) && IsOrder(idOrder)
      modifies this
      ensures WellKeyed(rows)
      ensures var spec := RewardImports.ImportEvents(old(View()), imp);
              if spec.Ok? then
                && View() == spec.value && RebuiltFrom(idOrder, View(), old(liabilities), liabilities)
                && r == Ok(|rows.Keys| - |Kept(old(View()).(rows := Deleted(old(rows), imp)), imp).Keys|)
              else View() == old(View()) && liabilities == old(liabilities) && r == Err(spec.error)
      ensures old(Settled(idOrder, View(), liabilities) && forall key | key in liabilities :: liabilities[key].exact) ==>
                Settled(idOrder, View(), liabilities) && forall key | key in liabilities :: liabilities[key].exact
    {
      hide WellKeyed, Kept, Deleted, Imported, RebuildFails, RebuiltFrom, ValidLabel, IsOrder;
      if !ValidLabel(imp.source) {
        return Err(InvalidSource);
      }
      if imp.priority < 1 {
        return Err(InvalidPriority);
      }
      if imp.replace && imp.events == [] {
        return Err(EmptyReplacement);
      }
      var savedRows, savedRegistry, savedLiabilities := rows, registry, liabilities;
      var ok, imported := Transact(imp);
      if !ok {
        rows, registry, liabilities := savedRows, savedRegistry, savedLiabilities;
        return Err(MalformedLiability);
      }
      ghost var wereExact := forall key | key in savedLiabilities :: savedLiabilities[key].exact;
      if wereExact {
        RebuiltIsSettled(idOrder, View(), savedLiabilities, liabilities);
      }
      r := Ok(imported);
    }
  }

  lemma TouchedIsIn(imp: Import)
    ensures TouchedIn(imp.events) == Touched(imp)
  {
  }

  lemma ReconciledRows(l: Ledger, epochs: set<nat>)
    ensures Reconciled(l, epochs).rows == l.rows
  {
    hide FullRegistry, LocalRegistry;
  }

  lemma NoEvents(rows: Rows, source: string)
    ensures WithEvents(rows, source, [], rows)
  {
    assert Ids(source, []) == {};
  }

  lemma SameActive(l: Ledger, imp: Import, done: set<nat>, epoch: nat)
    requires epoch !in done && Touches(imp, epoch)
    ensures Previous(MergedTo(l, imp, done).registry, epoch) == Previous(l.registry, epoch)
    ensures Wins(l.registry, imp, epoch) <==> !(epoch in l.registry && RankLess(RankOf(imp), l.registry[epoch]))
  {
    hide KeptTo, InsertedTo, RankLess;
  }

  lemma OustedCount(rows: Rows, kept: Rows, ousted: set<EventId>)
    requires ousted <= rows.Keys && ousted <= kept.Keys
    ensures |(rows - ousted).Keys| == |rows.Keys| - |ousted|
    ensures |(kept - ousted).Keys| == |kept.Keys| - |ousted|
  {
    assert (rows - ousted).Keys == rows.Keys - ousted;
    assert (kept - ousted).Keys == kept.Keys - ousted;
  }
}
