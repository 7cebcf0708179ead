/**
 The answer of a replay export, spelled on the rows and the query: its errors one by one,
 and otherwise which rows it lists, in which order and with which columns
 (`AnswerTells`).
 */
module ReplayAnswers {
  import opened ByteStrings
  import opened RewardRows
  import opened RewardImports
  import opened ImportSteps
  import opened Listings
  import opened RewardExport

  /** The source an epoch is registered with. */
  ghost predicate BelongsTo(s: Store, epoch: nat, source: string) {
    s.registry.Some? && epoch in s.registry.value && s.registry.value[epoch].source == source
  }

  ghost predicate HasSource(s: Store, epoch: nat) {
    exists source :: BelongsTo(s, epoch, source)
  }

  /** A credit for validating, proposing or a final committee; if exact, of the source its epoch belongs to, if any. */
  ghost predicate Shown(s: Store, row: Row) {
    && row.direction == Credit && row.amount > 0
    && (row.kind == Validation || row.kind == Proposer || row.kind == FinalCommittee)
    && (row.exact && HasSource(s, row.epoch) ==> BelongsTo(s, row.epoch, row.source))
  }

  /** Two exact sources in an epoch that belongs to none. */
  ghost predicate SourcesClash(s: Store) {
    exists a, b :: a in s.rows && b in s.rows && s.rows[a].exact && s.rows[b].exact && s.rows[a].epoch == s.rows[b].epoch
                   && s.rows[a].source != s.rows[b].source && !HasSource(s, s.rows[a].epoch)
  }

  /** The row is shown, of the epoch if there is one, and not above the height if there is one. */
  ghost predicate Selected(s: Store, q: Query, epoch: Option<nat>, row: Row) {
    Shown(s, row) && (epoch == None || epoch == Some(row.epoch)) && (q.maxHeight.Some? ==> row.height <= q.maxHeight.value)
  }

  ghost predicate SomeSelected(s: Store, q: Query, epoch: Option<nat>, exact: bool) {
    exists id :: id in s.rows && s.rows[id].exact == exact && Selected(s, q, epoch, s.rows[id])
  }

  /** By epoch, height, address and id. */
  ghost predicate ComesBefore(a: Row, b: Row, tie: bool) {
    || a.epoch < b.epoch || (a.epoch == b.epoch && a.height < b.height)
    || (a.epoch == b.epoch && a.height == b.height && Before(a.address, b.address))
    || (a.epoch == b.epoch && a.height == b.height && a.address == b.address && tie)
  }

  /** All selected rows, exact ones only unless others are allowed, each once and in order, with five of their columns. */
  ghost predicate ListsSelected(s: Store, q: Query, epoch: Option<nat>, idOrder: Order<EventId>, ids: seq<EventId>, events: seq<Replay>) {
    && |events| == |ids|
    && (forall id :: id in ids <==> id in s.rows && Selected(s, q, epoch, s.rows[id]) && (q.allowInferred || s.rows[id].exact))
    && (forall i | 0 <= i < |ids| ::
          && ids[i] in s.rows && events[i].address == s.rows[ids[i]].address && events[i].kind == s.rows[ids[i]].kind
          && events[i].amount == s.rows[ids[i]].amount && events[i].height == s.rows[ids[i]].height
          && events[i].blockHash == s.rows[ids[i]].blockHash)
    && (forall i, j | 0 <= i < j < |ids| :: ComesBefore(s.rows[ids[i]], s.rows[ids[j]], idOrder(ids[i], ids[j])))
  }

  /** The answer once the epoch is known: an error for want of exact rows, or the list. */
  ghost predicate AnswersFor(s: Store, q: Query, epoch: Option<nat>, idOrder: Order<EventId>, r: Result<seq<Replay>, ExportError>) {
    if !SomeSelected(s, q, epoch, true) && q.requireExact then r == Err(NoExactRewards)
    else if !SomeSelected(s, q, epoch, true) && !q.allowInferred && SomeSelected(s, q, epoch, false) then
      r == Err(OnlyInferredRewards)
    else r.Ok? && exists ids :: ListsSelected(s, q, epoch, idOrder, ids, r.value)
  }

  /** The greatest epoch with a row that is shown. */
  ghost predicate GreatestShown(s: Store, epoch: nat) {
    && (exists id :: id in s.rows && Shown(s, s.rows[id]) && s.rows[id].epoch == epoch)
    && (forall id | id in s.rows && Shown(s, s.rows[id]) :: s.rows[id].epoch <= epoch)
  }

  lemma ShownIff(s: Store, row: Row)
    ensures Shown(s, row) <==> Offered(s, row)
  {
    if !Unregistered(s, row.epoch) {
      assert BelongsTo(s, row.epoch, s.registry.value[row.epoch].source);
    }
  }

  lemma ClashIff(s: Store)
    ensures SourcesClash(s) <==> Ambiguous(s)
  {
    forall epoch: nat ensures HasSource(s, epoch) <==> !Unregistered(s, epoch) {
      if !Unregistered(s, epoch) {
        assert BelongsTo(s, epoch, s.registry.value[epoch].source);
      }
    }
    hide HasSource, Unregistered;
    if a, b :| a in s.rows && b in s.rows && Clash(s, s.rows[a], s.rows[b]) {
      assert SourcesClash(s);
    }
    if SourcesClash(s) {
      var a, b :| a in s.rows && b in s.rows && s.rows[a].exact && s.rows[b].exact && s.rows[a].epoch == s.rows[b].epoch
                  && s.rows[a].source != s.rows[b].source && !HasSource(s, s.rows[a].epoch);
      assert Clash(s, s.rows[a], s.rows[b]);
    }
  }

  lemma SelectedIff(s: Store, q: Query, epoch: Option<nat>, row: Row)
    ensures Selected(s, q, epoch, row) <==> Offered(s, row) && InScope(epoch, q.maxHeight, row)
  {
    hide Shown, Offered;
    ShownIff(s, row);
  }

  lemma ComesBeforeIff(a: Row, b: Row, tie: bool)
    ensures ComesBefore(a, b, tie) <==> Precedes(a, b, tie)
  {
    hide LexLess, Codes, Before;
    BeforeIff(a.address, b.address);
  }

  lemma SelectionIff(s: Store, q: Query, epoch: Option<nat>)
    ensures SomeSelected(s, q, epoch, true) <==> SomeExact(s, epoch, q.maxHeight)
    ensures SomeSelected(s, q, epoch, false) <==> SomeInferred(s, epoch, q.maxHeight)
  {
    hide Selected, Offered, InScope;
    forall id | id in s.rows
      ensures Selected(s, q, epoch, s.rows[id]) <==> Offered(s, s.rows[id]) && InScope(epoch, q.maxHeight, s.rows[id])
    {
      SelectedIff(s, q, epoch, s.rows[id]);
    }
  }

  lemma ListIsSelected(s: Store, q: Query, epoch: Option<nat>, idOrder: Order<EventId>, ids: seq<EventId>, events: seq<Replay>)
    requires IsListing(s, Exported(s, q, epoch), idOrder, ids, events)
    ensures ListsSelected(s, q, epoch, idOrder, ids, events)
  {
    hide Selected, Offered, InScope, ComesBefore, Precedes;
    forall id | id in s.rows
      ensures Selected(s, q, epoch, s.rows[id]) <==> Offered(s, s.rows[id]) && InScope(epoch, q.maxHeight, s.rows[id])
    {
      SelectedIff(s, q, epoch, s.rows[id]);
    }
    forall i, j | 0 <= i < j < |ids| ensures ComesBefore(s.rows[ids[i]], s.rows[ids[j]], idOrder(ids[i], ids[j])) {
      ComesBeforeIff(s.rows[ids[i]], s.rows[ids[j]], idOrder(ids[i], ids[j]));
    }
  }

  lemma ScopeTells(s: Store, q: Query, epoch: Option<nat>, idOrder: Order<EventId>, r: Result<seq<Replay>, ExportError>)
    requires if Shortage(s, q, epoch).Some? then r == Err(Shortage(s, q, epoch).value)
             else r.Ok? && exists ids :: IsListing(s, Exported(s, q, epoch), idOrder, ids, r.value)
    ensures AnswersFor(s, q, epoch, idOrder, r)
  {
    hide SomeSelected, SomeExact, SomeInferred, IsListing, ListsSelected, Exported;
    SelectionIff(s, q, epoch);
    if Shortage(s, q, epoch).None? {
      var ids :| IsListing(s, Exported(s, q, epoch), idOrder, ids, r.value);
      ListIsSelected(s, q, epoch, idOrder, ids, r.value);
    }
  }

  lemma LatestIff(s: Store)
    ensures forall epoch: nat :: GreatestShown(s, epoch) <==> IsLatest(s, epoch)
    ensures NothingOffered(s) <==> forall id | id in s.rows :: !Shown(s, s.rows[id])
  {
    hide Shown, Offered;
    forall id | id in s.rows ensures Shown(s, s.rows[id]) <==> Offered(s, s.rows[id]) {
      ShownIff(s, s.rows[id]);
    }
  }

  /** Every answer of an export: the errors in the order in which they are looked for, then the list for the epoch asked
      for, or for the latest one that has a row to show. */
  lemma AnswerTells(s: Store, q: Query, idOrder: Order<EventId>, r: Result<seq<Replay>, ExportError>)
    requires IsAnswer(s, q, idOrder, r)
    ensures if q.requireExact && q.allowInferred then r == Err(ConflictingConfidence)
            else if q.epoch.Some? && q.latest then r == Err(ConflictingEpochs)
            else if SourcesClash(s) then r == Err(AmbiguousSources)
            else if !q.latest then AnswersFor(s, q, q.epoch, idOrder, r)
            else if forall id | id in s.rows :: !Shown(s, s.rows[id]) then r == Err(NoEligibleEpoch)
            else exists epoch: nat :: GreatestShown(s, epoch) && AnswersFor(s, q, Some(epoch), idOrder, r)
  {
    hide Ambiguous, SourcesClash, Offered, Shown, Exported, Shortage, IsListing, AnswersFor, IsLatest, GreatestShown, NothingOffered;
    ClashIff(s);
    LatestIff(s);
    if !(q.requireExact && q.allowInferred) && !(q.epoch.Some? && q.latest) && !Ambiguous(s) && !(q.latest && NothingOffered(s)) {
      var epoch := ScopeOf(s, q, idOrder, r);
      ScopeTells(s, q, epoch, idOrder, r);
    }
  }

  lemma ScopeOf(s: Store, q: Query, idOrder: Order<EventId>, r: Result<seq<Replay>, ExportError>) returns (epoch: Option<nat>)
    requires IsAnswer(s, q, idOrder, r)
    requires !(q.requireExact && q.allowInferred) && !(q.epoch.Some? && q.latest) && !Ambiguous(s) && !(q.latest && NothingOffered(s))
    ensures IsScope(s, q, epoch)
    ensures if Shortage(s, q, epoch).Some? then r == Err(Shortage(s, q, epoch).value)
            else r.Ok? && exists ids :: IsListing(s, Exported(s, q, epoch), idOrder, ids, r.value)
  {
    hide Ambiguous, Exported, Shortage, IsListing, IsScope, NothingOffered;
    if r.Err? {
      epoch :| IsScope(s, q, epoch)
        && Err(r.error) == if Shortage(s, q, epoch).Some? then Err(Shortage(s, q, epoch).value) else Ok(Exported(s, q, epoch));
    } else {
      var ids, listed :| IsExport(s, q, Ok(ids)) && IsListing(s, ids, idOrder, listed, r.value);
      epoch :| IsScope(s, q, epoch)
        && Ok(ids) == if Shortage(s, q, epoch).Some? then Err(Shortage(s, q, epoch).value) else Ok(Exported(s, q, epoch));
    }
  }
}
