/**
 The export of reward events for replay, on any state of the tables: also one an older
 version left without a table of registered sources.

 Main results: a successful export never mixes exact sources within an epoch
 (`ExportHasOneSource`); on a ledger filled by imports the filter loses nothing
 (`RunsExportEverything`); and registering the sources of an old ledger makes every
 export possible without changing one that was possible before (`MigrationSettles`).
 */
module RewardExport {
  import opened ByteStrings
  import opened RewardRows
  import opened RewardImports
  import opened Listings

  /** The tables as an export finds them; no registry when that table does not exist. */
  datatype Store = Store(rows: Rows, registry: Option<Registry>)

  datatype Query = Query(epoch: Option<nat>, latest: bool, maxHeight: Option<int>, allowInferred: bool, requireExact: bool)

  datatype ExportError =
    | ConflictingConfidence
    | ConflictingEpochs
    | AmbiguousSources
    | NoEligibleEpoch
    | NoExactRewards
    | OnlyInferredRewards

  predicate Eligible(row: Row) {
    row.direction == Credit && row.amount > 0 && row.kind in {Validation, Proposer, FinalCommittee}
  }

  predicate Unregistered(s: Store, epoch: nat) {
    s.registry.None? || epoch !in s.registry.value
  }

  /** Two exact sources in an epoch that has no registered one. */
  predicate Ambiguous(s: Store) {
    exists a, b :: a in s.rows && b in s.rows && Clash(s, s.rows[a], s.rows[b])
  }

  predicate Clash(s: Store, a: Row, b: Row) {
    a.exact && b.exact && a.epoch == b.epoch && a.source != b.source && Unregistered(s, a.epoch)
  }

  /** `canonical_exact_source_filter_sql`. */
  predicate Passes(s: Store, row: Row) {
    !row.exact || Unregistered(s, row.epoch) || s.registry.value[row.epoch].source == row.source
  }

  predicate Offered(s: Store, row: Row) {
    Eligible(row) && Passes(s, row)
  }

  predicate InScope(epoch: Option<nat>, maxHeight: Option<int>, row: Row) {
    (epoch.Some? ==> row.epoch == epoch.value) && (maxHeight.Some? ==> row.height <= maxHeight.value)
  }

  ghost predicate IsLatest(s: Store, epoch: nat) {
    && (exists id :: id in s.rows && Offered(s, s.rows[id]) && s.rows[id].epoch == epoch)
    && (forall id | id in s.rows && Offered(s, s.rows[id]) :: s.rows[id].epoch <= epoch)
  }

  predicate NothingOffered(s: Store) {
    forall id | id in s.rows :: !Offered(s, s.rows[id])
  }

  predicate SomeExact(s: Store, epoch: Option<nat>, maxHeight: Option<int>) {
    exists id :: id in s.rows && Offered(s, s.rows[id]) && InScope(epoch, maxHeight, s.rows[id]) && s.rows[id].exact
  }

  predicate SomeInferred(s: Store, epoch: Option<nat>, maxHeight: Option<int>) {
    exists id :: id in s.rows && Offered(s, s.rows[id]) && InScope(epoch, maxHeight, s.rows[id]) && !s.rows[id].exact
  }

  /** The epoch an export is restricted to. */
  ghost predicate IsScope(s: Store, q: Query, epoch: Option<nat>) {
    if q.latest then epoch.Some? && IsLatest(s, epoch.value) else epoch == q.epoch
  }

  /** The error of an export restricted to this epoch, if any. */
  function Shortage(s: Store, q: Query, epoch: Option<nat>): Option<ExportError> {
    if SomeExact(s, epoch, q.maxHeight) then None
    else if q.requireExact then Some(NoExactRewards)
    else if !q.allowInferred && SomeInferred(s, epoch, q.maxHeight) then Some(OnlyInferredRewards)
    else None
  }

  /** The ids of the exported rows. */
  ghost function Exported(s: Store, q: Query, epoch: Option<nat>): set<EventId> {
    set id | id in s.rows && Offered(s, s.rows[id]) && InScope(epoch, q.maxHeight, s.rows[id])
             && (q.allowInferred || s.rows[id].exact)
  }

  ghost predicate IsExport(s: Store, q: Query, r: Result<set<EventId>, ExportError>) {
    if q.requireExact && q.allowInferred then r == Err(ConflictingConfidence)
    else if q.epoch.Some? && q.latest then r == Err(ConflictingEpochs)
    else if Ambiguous(s) then r == Err(AmbiguousSources)
    else if q.latest && NothingOffered(s) then r == Err(NoEligibleEpoch)
    else
      exists epoch :: IsScope(s, q, epoch)
        && r == if Shortage(s, q, epoch).Some? then Err(Shortage(s, q, epoch).value) else Ok(Exported(s, q, epoch))
  }

  // -------------------------------------------------------------------- properties

  /** On any state of the tables, a successful export has at most one exact source for an epoch, and nothing but
      exact rows unless inferred ones are allowed. */
  lemma ExportHasOneSource(s: Store, q: Query, ids: set<EventId>)
    requires IsExport(s, q, Ok(ids))
    ensures ids <= s.rows.Keys
    ensures forall a, b | a in ids && b in ids && s.rows[a].exact && s.rows[b].exact && s.rows[a].epoch == s.rows[b].epoch ::
              s.rows[a].source == s.rows[b].source
    ensures !q.allowInferred ==> forall id | id in ids :: s.rows[id].exact
    ensures q.requireExact ==> ids != {}
  {
    hide Eligible, InScope;
    assert !Ambiguous(s);
    var epoch :| IsScope(s, q, epoch) && Ok(ids)
      == if Shortage(s, q, epoch).Some? then Err(Shortage(s, q, epoch).value) else Ok(Exported(s, q, epoch));
    forall a, b | a in ids && b in ids && s.rows[a].exact && s.rows[b].exact && s.rows[a].epoch == s.rows[b].epoch
      ensures s.rows[a].source == s.rows[b].source
    {
      assert !Clash(s, s.rows[a], s.rows[b]);
    }
    if q.requireExact {
      var id :| id in s.rows && Offered(s, s.rows[id]) && InScope(epoch, q.maxHeight, s.rows[id]) && s.rows[id].exact;
      assert id in ids;
    }
  }

  /** The latest epoch is one number, so an export has one result. */
  lemma ExportIsUnique(s: Store, q: Query, r: Result<set<EventId>, ExportError>, t: Result<set<EventId>, ExportError>)
    requires IsExport(s, q, r) && IsExport(s, q, t)
    ensures r == t
  {
    hide Offered, Ambiguous, Shortage, Exported;
    forall e, f | IsScope(s, q, e) && IsScope(s, q, f) ensures e == f {
      if q.latest {
        var a :| a in s.rows && Offered(s, s.rows[a]) && s.rows[a].epoch == e.value;
        var b :| b in s.rows && Offered(s, s.rows[b]) && s.rows[b].epoch == f.value;
      }
    }
  }

  ghost function StoreOf(l: Ledger): Store {
    Store(l.rows, Some(l.registry))
  }

  lemma ConsistentPasses(l: Ledger, id: EventId)
    requires Consistent(l) && id in l.rows
    ensures Passes(StoreOf(l), l.rows[id])
    ensures l.rows[id].exact ==> l.rows[id].epoch in l.registry
  {
    hide WellKeyed;
    var row := l.rows[id];
    if row.exact {
      assert row.source in Candidates(l.rows, row.epoch);
      assert ConsistentAt(l, row.epoch);
    }
  }

  /** After any run of imports nothing is ambiguous, and the filter drops no row: the export is all eligible rows
      in its scope. */
  lemma RunsExportEverything(imports: seq<Import>, q: Query, epoch: Option<nat>)
    ensures var s := StoreOf(Run(EMPTY, imports));
            && !Ambiguous(s)
            && Exported(s, q, epoch)
               == set id | id in s.rows && Eligible(s.rows[id]) && InScope(epoch, q.maxHeight, s.rows[id])
                           && (q.allowInferred || s.rows[id].exact)
  {
    hide Run, Consistent, Eligible, InScope, Passes;
    RunsStayConsistent(imports);
    var l := Run(EMPTY, imports);
    forall id | id in l.rows
      ensures Passes(StoreOf(l), l.rows[id])
      ensures l.rows[id].exact ==> l.rows[id].epoch in l.registry
    {
      ConsistentPasses(l, id);
    }
  }

  /** Registering the sources of a ledger that has no registry: afterwards nothing is ambiguous, and if nothing was
      ambiguous before then the same rows pass the filter. */
  lemma MigrationSettles(rows: Rows, q: Query, r: Result<set<EventId>, ExportError>)
    ensures var after := Store(rows, Some(FullRegistry(Ledger(rows, map[]))));
            && !Ambiguous(after)
            && (!Ambiguous(Store(rows, None)) ==> (IsExport(Store(rows, None), q, r) <==> IsExport(after, q, r)))
  {
    hide ExactEpochs, Eligible, InScope, Candidates;
    var l := Ledger(rows, map[]);
    var before, after := Store(rows, None), Store(rows, Some(FullRegistry(l)));
    forall id | id in rows && rows[id].exact ensures !Unregistered(after, rows[id].epoch) {
      ExactIsIn(rows, id);
    }
    if !Ambiguous(before) {
      forall id | id in rows ensures Passes(after, rows[id]) {
        if rows[id].exact {
          OnlySourcePasses(rows, id);
        }
      }
      assert forall id | id in rows :: Offered(before, rows[id]) <==> Offered(after, rows[id]);
      SameOffers(before, after, q, r);
    }
  }

  lemma ExactIsIn(rows: Rows, id: EventId)
    requires id in rows && rows[id].exact
    ensures rows[id].epoch in ExactEpochs(rows) && rows[id].source in Candidates(rows, rows[id].epoch)
  {
  }

  /** With one source in an epoch, that source is registered. */
  lemma OnlySourcePasses(rows: Rows, id: EventId)
    requires id in rows && rows[id].exact && !Ambiguous(Store(rows, None))
    ensures rows[id].epoch in FullRegistry(Ledger(rows, map[]))
    ensures FullRegistry(Ledger(rows, map[]))[rows[id].epoch].source == rows[id].source
  {
    hide RankLess;
    ExactIsIn(rows, id);
    var l, epoch := Ledger(rows, map[]), rows[id].epoch;
    var best := BestAt(l, epoch).source;
    assert best in Candidates(rows, epoch);
    var other :| other in rows && rows[other].exact && rows[other].epoch == epoch && rows[other].source == best;
    assert !Clash(Store(rows, None), rows[id], rows[other]);
  }

  /** Stores with the same rows that offer the same rows have the same exports. */
  lemma SameOffers(s: Store, t: Store, q: Query, r: Result<set<EventId>, ExportError>)
    requires s.rows == t.rows && !Ambiguous(s) && !Ambiguous(t)
    requires forall id | id in s.rows :: Offered(s, s.rows[id]) <==> Offered(t, s.rows[id])
    ensures IsExport(s, q, r) <==> IsExport(t, q, r)
  {
    hide Offered, Ambiguous, InScope;
    forall epoch: nat ensures IsLatest(s, epoch) <==> IsLatest(t, epoch) {
    }
    forall epoch ensures IsScope(s, q, epoch) <==> IsScope(t, q, epoch) {
    }
    forall epoch
      ensures Exported(s, q, epoch) == Exported(t, q, epoch)
      ensures Shortage(s, q, epoch) == Shortage(t, q, epoch)
    {
      assert SomeExact(s, epoch, q.maxHeight) <==> SomeExact(t, epoch, q.maxHeight);
      assert SomeInferred(s, epoch, q.maxHeight) <==> SomeInferred(t, epoch, q.maxHeight);
    }
  }

  // -------------------------------------------------------------------- the listing

  /** The order of the listing: epoch, height, address, id. */
  function ByPlace(rows: Rows, idOrder: Order<EventId>): Order<EventId> {
    (a, b) => a in rows && b in rows && Precedes(rows[a], rows[b], idOrder(a, b))
  }

  predicate Precedes(a: Row, b: Row, tie: bool) {
    a.epoch < b.epoch
    || (a.epoch == b.epoch && (a.height < b.height
        || (a.height == b.height && (LexLess(Codes(a.address), Codes(b.address)) || (a.address == b.address && tie)))))
  }

  lemma PrecedesTotal(a: Row, b: Row, tie: bool)
    ensures Precedes(a, b, tie) || Precedes(b, a, !tie)
    ensures !Precedes(a, a, false)
  {
    hide Codes, LexLess;
    LexTrichotomy(Codes(a.address), Codes(b.address));
    LexTrichotomy(Codes(a.address), Codes(a.address));
    if Codes(a.address) == Codes(b.address) {
      CodesInjective(a.address, b.address);
    }
  }

  lemma PrecedesTransitive(a: Row, b: Row, c: Row, ab: bool, bc: bool)
    requires Precedes(a, b, ab) && Precedes(b, c, bc)
    ensures Precedes(a, c, ab && bc)
  {
    hide Codes, LexLess;
    if LexLess(Codes(a.address), Codes(b.address)) && LexLess(Codes(b.address), Codes(c.address)) {
      LexTransitive(Codes(a.address), Codes(b.address), Codes(c.address));
    }
  }

  lemma TieIsWeaker(a: Row, b: Row, tie: bool, other: bool)
    requires Precedes(a, b, tie) && (tie ==> other)
    ensures Precedes(a, b, other)
  {
  }

  lemma ByPlaceOrders(rows: Rows, idOrder: Order<EventId>, ids: set<EventId>)
    requires IsOrder(idOrder) && ids <= rows.Keys
    ensures Orders(ByPlace(rows, idOrder), ids)
  {
    hide Precedes;
    var less := ByPlace(rows, idOrder);
    forall x | x in ids ensures !less(x, x) {
      PrecedesTotal(rows[x], rows[x], idOrder(x, x));
    }
    forall x, y | x in ids && y in ids && x != y ensures less(x, y) || less(y, x) {
      PrecedesTotal(rows[x], rows[y], idOrder(x, y));
      assert idOrder(x, y) || idOrder(y, x);
      if Precedes(rows[y], rows[x], !idOrder(x, y)) {
        TieIsWeaker(rows[y], rows[x], !idOrder(x, y), idOrder(y, x));
      }
    }
    forall x, y, z | x in ids && y in ids && z in ids && less(x, y) && less(y, z) ensures less(x, z) {
      PrecedesTransitive(rows[x], rows[y], rows[z], idOrder(x, y), idOrder(y, z));
      TieIsWeaker(rows[x], rows[z], idOrder(x, y) && idOrder(y, z), idOrder(x, z));
    }
  }

  /** The selected ids, in order. */
  method Listing(rows: Rows, ids: set<EventId>, idOrder: Order<EventId>) returns (listed: seq<EventId>)
    requires IsOrder(idOrder) && ids <= rows.Keys
    ensures Lists(listed, ids, ByPlace(rows, idOrder))
  {
    hide ByPlace, IsOrder, Orders;
    ByPlaceOrders(rows, idOrder, ids);
    listed := List(ids, ByPlace(rows, idOrder));
  }

  method LatestEpoch(s: Store) returns (epoch: nat)
    requires !NothingOffered(s)
    ensures IsLatest(s, epoch)
  {
    hide Offered;
    var left := set id | id in s.rows && Offered(s, s.rows[id]);
    ghost var all := left;
    ghost var offered :| offered in s.rows && Offered(s, s.rows[offered]);
    assert offered in left;
    var some :| some in left;
    epoch := s.rows[some].epoch;
    while left != {}
      invariant left <= all
      invariant exists id :: id in all && s.rows[id].epoch == epoch
      invariant forall id | id in all - left :: s.rows[id].epoch <= epoch
      decreases left
    {
      var id :| id in left;
      if s.rows[id].epoch > epoch {
        epoch := s.rows[id].epoch;
      }
      left := left - {id};
    }
  }

  /** An event of the export. */
  datatype Replay = Replay(address: string, kind: ReplayKind, amount: int, height: nat, blockHash: string)

  function ReplayOf(row: Row): Replay {
    Replay(row.address, row.kind, row.amount, row.height, row.blockHash)
  }

  /** The events of these rows, in order. */
  ghost predicate IsListing(s: Store, ids: set<EventId>, idOrder: Order<EventId>, listed: seq<EventId>, events: seq<Replay>) {
    && Lists(listed, ids, ByPlace(s.rows, idOrder)) && |events| == |listed|
    && forall i | 0 <= i < |listed| :: listed[i] in s.rows && events[i] == ReplayOf(s.rows[listed[i]])
  }

  /** The whole answer of an export: an error, or the events of the exported rows in order. */
  ghost predicate IsAnswer(s: Store, q: Query, idOrder: Order<EventId>, r: Result<seq<Replay>, ExportError>) {
    if r.Err? then IsExport(s, q, Err(r.error))
    else exists ids, listed :: IsExport(s, q, Ok(ids)) && IsListing(s, ids, idOrder, listed, r.value)
  }

  lemma SameListing(s: Store, ids: set<EventId>, idOrder: Order<EventId>, a: seq<EventId>, b: seq<EventId>, x: seq<Replay>, y: seq<Replay>)
    requires IsOrder(idOrder) && ids <= s.rows.Keys && IsListing(s, ids, idOrder, a, x) && IsListing(s, ids, idOrder, b, y)
    ensures x == y
  {
    hide ByPlace, Orders, Lists, IsOrder;
    ByPlaceOrders(s.rows, idOrder, ids);
    ListingIsUnique(a, b, ids, ByPlace(s.rows, idOrder));
  }

  /** An export has one answer, down to the order of its events. */
  lemma AnswerIsUnique(s: Store, q: Query, idOrder: Order<EventId>, r: Result<seq<Replay>, ExportError>, t: Result<seq<Replay>, ExportError>)
    requires IsOrder(idOrder) && IsAnswer(s, q, idOrder, r) && IsAnswer(s, q, idOrder, t)
    ensures r == t
  {
    hide IsExport, IsListing, IsOrder;
    if r.Ok? && t.Ok? {
      var ids, a :| IsExport(s, q, Ok(ids)) && IsListing(s, ids, idOrder, a, r.value);
      var others, b :| IsExport(s, q, Ok(others)) && IsListing(s, others, idOrder, b, t.value);
      ExportIsUnique(s, q, Ok(ids), Ok(others));
      ExportHasOneSource(s, q, ids);
      SameListing(s, ids, idOrder, a, b, r.value, t.value);
    } else if r.Ok? {
      var ids, a :| IsExport(s, q, Ok(ids)) && IsListing(s, ids, idOrder, a, r.value);
      ExportIsUnique(s, q, Ok(ids), Err(t.error));
    } else if t.Ok? {
      var ids, a :| IsExport(s, q, Ok(ids)) && IsListing(s, ids, idOrder, a, t.value);
      ExportIsUnique(s, q, Ok(ids), Err(r.error));
    } else {
      ExportIsUnique(s, q, Err(r.error), Err(t.error));
    }
  }

  /** `export_replay_events`. */
  method ExportReplayEvents(s: Store, q: Query, idOrder: Order<EventId>) returns (r: Result<seq<Replay>, ExportError>)
    requires IsOrder(idOrder)
    ensures IsAnswer(s, q, idOrder, r)
  {
    hide Ambiguous, Offered, InScope, SomeExact, SomeInferred, ByPlace, NothingOffered, IsLatest, IsOrder;
    if q.requireExact && q.allowInferred {
      return Err(ConflictingConfidence);
    }
    if q.epoch.Some? && q.latest {
      return Err(ConflictingEpochs);
    }
    if Ambiguous(s) {
      return Err(AmbiguousSources);
    }
    var epoch := q.epoch;
    if q.latest {
      if NothingOffered(s) {
        return Err(NoEligibleEpoch);
      }
      var latest := LatestEpoch(s);
      epoch := Some(latest);
    }
    assert IsScope(s, q, epoch);
    var shortage := Shortage(s, q, epoch);
    if shortage.Some? {
      return Err(shortage.value);
    }
    var selected := set id | id in s.rows && Offered(s, s.rows[id]) && InScope(epoch, q.maxHeight, s.rows[id])
                             && (q.allowInferred || s.rows[id].exact);
    assert selected == Exported(s, q, epoch);
    var ids := Listing(s.rows, selected, idOrder);
    var events := [];
    for i := 0 to |ids|
      invariant |events| == i && forall j | 0 <= j < i :: events[j] == ReplayOf(s.rows[ids[j]])
    {
      events := events + [ReplayOf(s.rows[ids[i]])];
    }
    assert IsExport(s, q, Ok(selected)) && IsListing(s, selected, idOrder, ids, events);
    r := Ok(events);
  }
}
