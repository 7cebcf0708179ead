/**
 Imports of exact reward events. Every epoch has one registered source; an import
 takes over the epochs where its (priority, source) rank is not below the registered
 one, and the registry is then reconciled with the rows.

 Main results: every run keeps the registry and the rows consistent
 (`RunsStayConsistent`), and then local reconciliation equals full reconciliation
 (`LocalIsFull`).
 */
module RewardImports {
  import opened ByteStrings
  import opened RewardRows
  import opened Liabilities

  const MAX_LOCAL_RECONCILIATION_EPOCHS: nat := 500

  type Rows = map<EventId, Row>
  type Registry = map<nat, Registration>

  datatype Ledger = Ledger(rows: Rows, registry: Registry)

  const EMPTY := Ledger(map[], map[])

  datatype Import = Import(source: string, priority: int, events: seq<RawEvent>, replace: bool)

  datatype ImportError = InvalidSource | InvalidPriority | EmptyReplacement | MalformedLiability

  function RankOf(imp: Import): Registration {
    Registration(imp.source, imp.priority)
  }

  predicate Touches(imp: Import, epoch: nat) {
    exists i :: 0 <= i < |imp.events| && imp.events[i].epoch == epoch
  }

  function Touched(imp: Import): set<nat> {
    set i | 0 <= i < |imp.events| :: imp.events[i].epoch
  }

  // ------------------------------------------------------------------ well-keyed rows

  /** Rows stand under their own id; exact ids belong to exact rows, and name their source and epoch. */
  ghost predicate WellKeyed(rows: Rows) {
    forall id | id in rows ::
      && rows[id].id == id && (rows[id].exact <==> id.ExactId?)
      && (rows[id].exact ==> id.source == rows[id].source && id.epoch == rows[id].epoch)
  }

  function Candidates(rows: Rows, epoch: nat): set<string> {
    set id | id in rows && rows[id].exact && rows[id].epoch == epoch :: rows[id].source
  }

  // -------------------------------------------------------------------- one import

  function Deleted(rows: Rows, imp: Import): Rows {
    if !imp.replace then rows
    else map id | id in rows && !(rows[id].exact && rows[id].source == imp.source) :: rows[id]
  }

  /** The epoch is in the import and its rank is not below the registered one. */
  predicate Wins(registry: Registry, imp: Import, epoch: nat) {
    Touches(imp, epoch) && (epoch in registry ==> !RankLess(RankOf(imp), registry[epoch]))
  }

  /** Rows that give way: exact rows of other sources in an epoch that is taken over. */
  predicate GivesWay(registry: Registry, imp: Import, row: Row) {
    row.exact && row.source != imp.source && Wins(registry, imp, row.epoch)
  }

  function Kept(l: Ledger, imp: Import): Rows {
    map id | id in l.rows && !GivesWay(l.registry, imp, l.rows[id]) :: l.rows[id]
  }

  /** The ids the import inserts into epochs it takes over. */
  function Inserted(registry: Registry, imp: Import): set<EventId> {
    set i | 0 <= i < |imp.events| && Wins(registry, imp, imp.events[i].epoch) :: IdOf(imp.source, imp.events[i])
  }

  /** The first event with an id: later ones are ignored by the insert. */
  function FirstWith(imp: Import, id: EventId): Option<Row> {
    FirstIn(imp.source, imp.events, id)
  }

  function FirstIn(source: string, events: seq<RawEvent>, id: EventId): (r: Option<Row>)
    ensures r.Some? <==> exists i :: 0 <= i < |events| && IdOf(source, events[i]) == id
    ensures r.Some? ==> exists i :: 0 <= i < |events| && r.value == ToRow(source, events[i]) && IdOf(source, events[i]) == id
  {
    if events == [] then None
    else if IdOf(source, events[0]) == id then
      assert IdOf(source, events[0]) == id;
      Some(ToRow(source, events[0]))
    else
      var rest := FirstIn(source, events[1..], id);
      assert forall i | 0 < i < |events| :: events[i] == events[1..][i - 1];
      assert forall i | 0 <= i < |events| - 1 :: events[1..][i] == events[i + 1];
      rest
  }

  function FirstRow(imp: Import, id: EventId): Row
    requires exists i :: 0 <= i < |imp.events| && IdOf(imp.source, imp.events[i]) == id
  {
    FirstWith(imp, id).value
  }

  /** The tables after the deletions and insertions, before reconciliation. */
  function Merged(l: Ledger, imp: Import): Ledger {
    var kept := Kept(l, imp);
    Ledger(
      map id | id in kept.Keys + Inserted(l.registry, imp) ::
        if id in kept then kept[id] else FirstRow(imp, id),
      map epoch | epoch in l.registry.Keys + Touched(imp) && (epoch in l.registry || Wins(l.registry, imp, epoch)) ::
        if Wins(l.registry, imp, epoch) then RankOf(imp) else l.registry[epoch])
  }

  // -------------------------------------------------------------- reconciliation

  /** The registered priority of a source, or the one its name suggests. */
  function RankIn(source: string, previous: Option<Registration>): Registration {
    if previous.Some? && previous.value.source == source then previous.value
    else Registration(source, InferredPriority(source))
  }

  /** No other candidate ranks above this one. */
  ghost predicate IsBest(candidates: set<string>, previous: Option<Registration>, s: string) {
    s in candidates && forall t | t in candidates :: !RankLess(RankIn(s, previous), RankIn(t, previous))
  }

  /** The better of a new candidate and the best of the others is the best of all. */
  lemma BestOfMore(others: set<string>, previous: Option<Registration>, s: string, one: string)
    requires IsBest(others, previous, s)
    ensures IsBest(others + {one}, previous, if RankLess(RankIn(s, previous), RankIn(one, previous)) then one else s)
  {
    hide RankLess, RankIn;
    var a, b := RankIn(s, previous), RankIn(one, previous);
    RankTotal(b, b);
    if RankLess(a, b) {
      forall t | t in others ensures !RankLess(b, RankIn(t, previous)) {
        if RankLess(b, RankIn(t, previous)) {
          RankTransitive(a, b, RankIn(t, previous));
        }
      }
    }
  }

  lemma {:induction false} BestExists(candidates: set<string>, previous: Option<Registration>)
    requires candidates != {}
    ensures exists s :: IsBest(candidates, previous, s)
    decreases candidates
  {
    hide RankLess, RankIn;
    var one :| one in candidates;
    var others := candidates - {one};
    assert others + {one} == candidates;
    if others == {} {
      RankTotal(RankIn(one, previous), RankIn(one, previous));
      assert candidates == {one};
      assert IsBest(candidates, previous, one);
    } else {
      BestExists(others, previous);
      var s :| IsBest(others, previous, s);
      BestOfMore(others, previous, s, one);
    }
  }

  /** `max(ranked)` over the sources that have exact rows. */
  ghost function Best(candidates: set<string>, previous: Option<Registration>): (r: Registration)
    requires candidates != {}
    ensures IsBest(candidates, previous, r.source) && r == RankIn(r.source, previous)
  {
    BestExists(candidates, previous);
    var s :| IsBest(candidates, previous, s);
    RankIn(s, previous)
  }

  lemma BestIsUnique(candidates: set<string>, previous: Option<Registration>, s: string)
    requires IsBest(candidates, previous, s)
    ensures Best(candidates, previous) == RankIn(s, previous)
  {
    hide RankLess;
    RankTotal(RankIn(s, previous), Best(candidates, previous));
  }

  function ExactEpochs(rows: Rows): set<nat> {
    set id | id in rows && rows[id].exact :: rows[id].epoch
  }

  function Previous(registry: Registry, epoch: nat): Option<Registration> {
    if epoch in registry then Some(registry[epoch]) else None
  }

  lemma CandidatesIffExact(rows: Rows, epoch: nat)
    ensures epoch in ExactEpochs(rows) <==> Candidates(rows, epoch) != {}
  {
    if epoch in ExactEpochs(rows) {
      var id :| id in rows && rows[id].exact && rows[id].epoch == epoch;
      assert rows[id].source in Candidates(rows, epoch);
    }
    if source :| source in Candidates(rows, epoch) {
      var id :| id in rows && rows[id].exact && rows[id].epoch == epoch && rows[id].source == source;
      assert rows[id].epoch in ExactEpochs(rows);
    }
  }

  /** Register the best source of one epoch. */
  ghost function BestAt(l: Ledger, epoch: nat): Registration
    requires epoch in ExactEpochs(l.rows)
  {
    CandidatesIffExact(l.rows, epoch);
    Best(Candidates(l.rows, epoch), Previous(l.registry, epoch))
  }

  ghost function FullRegistry(l: Ledger): Registry {
    map epoch | epoch in ExactEpochs(l.rows) :: BestAt(l, epoch)
  }

  ghost function LocalRegistry(l: Ledger, epochs: set<nat>): Registry {
    map epoch | epoch in (l.registry.Keys - epochs) + ExactEpochs(l.rows) * epochs ::
      if epoch in epochs then BestAt(l, epoch) else l.registry[epoch]
  }

  /** `reconcile_exact_reward_sources` for a set of epochs. */
  ghost function Reconciled(l: Ledger, epochs: set<nat>): Ledger {
    if epochs == {} then l
    else if |epochs| > MAX_LOCAL_RECONCILIATION_EPOCHS then l.(registry := FullRegistry(l))
    else l.(registry := LocalRegistry(l, epochs))
  }

  // ------------------------------------------------------------------- the import

  /** Printable label of 1 to 128 characters. */
  predicate ValidLabel(source: string) {
    0 < |source| <= 128 && forall i | 0 <= i < |source| :: source[i] as int >= 32
  }

  function Affected(l: Ledger, imp: Import): set<nat> {
    Touched(imp) + (if imp.replace then set id | id in l.rows && l.rows[id].exact && l.rows[id].source == imp.source :: l.rows[id].epoch
                    else {})
  }

  /** A row the liabilities are rebuilt from. */
  predicate CanonicalInvitee(l: Ledger, row: Row) {
    row.exact && row.kind == Invitee && row.epoch in l.registry && l.registry[row.epoch].source == row.source
  }

  /** The rebuild that ends an import raises an error. */
  predicate RebuildFails(l: Ledger) {
    exists id :: id in l.rows && CanonicalInvitee(l, l.rows[id]) && Parse(l.rows[id]).Malformed?
  }

  ghost function Imported(l: Ledger, imp: Import): Ledger {
    Reconciled(Merged(l.(rows := Deleted(l.rows, imp)), imp), Affected(l, imp))
  }

  /** `import_statscollector_replay_events`: an error rolls everything back. */
  ghost function ImportEvents(l: Ledger, imp: Import): Result<Ledger, ImportError> {
    if !ValidLabel(imp.source) then Err(InvalidSource)
    else if imp.priority < 1 then Err(InvalidPriority)
    else if imp.replace && imp.events == [] then Err(EmptyReplacement)
    else if RebuildFails(Imported(l, imp)) then Err(MalformedLiability)
    else Ok(Imported(l, imp))
  }

  /** A run of imports: a failed one changes nothing. */
  ghost function Run(l: Ledger, imports: seq<Import>): Ledger {
    if imports == [] then l
    else
      var before := Run(l, imports[..|imports| - 1]);
      var r := ImportEvents(before, imports[|imports| - 1]);
      if r.Ok? then r.value else before
  }

  /** For every order of the canonical invitee rows the fold of the rebuild aborts exactly when `RebuildFails`. */
  lemma RebuildAborts(l: Ledger, ordered: seq<Row>, maxEpoch: int)
    requires forall row :: row in ordered <==> exists id :: id in l.rows && l.rows[id] == row && CanonicalInvitee(l, row)
    ensures FoldRows(ordered, maxEpoch).Aborted? <==> RebuildFails(l)
  {
    hide Parse, CanonicalInvitee;
    AbortedIffMalformed(ordered, maxEpoch);
    if i :| 0 <= i < |ordered| && Parse(ordered[i]).Malformed? {
      assert ordered[i] in ordered;
    }
    if id :| id in l.rows && CanonicalInvitee(l, l.rows[id]) && Parse(l.rows[id]).Malformed? {
      assert l.rows[id] in ordered;
    }
  }

  // ------------------------------------------------------------------ consistency

  /** The exact rows of the epoch come from its registered source, and it is registered if it has any. */
  ghost predicate ConsistentAt(l: Ledger, epoch: nat) {
    Candidates(l.rows, epoch) == if epoch in l.registry then {l.registry[epoch].source} else {}
  }

  ghost predicate Consistent(l: Ledger) {
    WellKeyed(l.rows) && forall epoch: nat :: ConsistentAt(l, epoch)
  }

  lemma BestOfOne(source: string, previous: Option<Registration>)
    ensures Best({source}, previous) == RankIn(source, previous)
  {
    hide RankLess, RankIn;
    assert IsBest({source}, previous, Best({source}, previous).source);
  }

  lemma BestAtSingle(l: Ledger, epoch: nat, source: string)
    requires Candidates(l.rows, epoch) == {source}
    ensures epoch in ExactEpochs(l.rows) && BestAt(l, epoch) == RankIn(source, Previous(l.registry, epoch))
  {
    hide RankLess, RankIn, Candidates, ExactEpochs, Best;
    CandidatesIffExact(l.rows, epoch);
    BestOfOne(source, Previous(l.registry, epoch));
  }

  /** Reconciling a consistent epoch changes nothing there. */
  lemma ConsistentIsSettled(l: Ledger, epoch: nat)
    requires ConsistentAt(l, epoch)
    ensures epoch in l.registry <==> epoch in ExactEpochs(l.rows)
    ensures epoch in l.registry ==> BestAt(l, epoch) == l.registry[epoch]
  {
    hide Candidates, ExactEpochs, BestAt;
    CandidatesIffExact(l.rows, epoch);
    if epoch in l.registry {
      BestAtSingle(l, epoch, l.registry[epoch].source);
    }
  }

  /** When everything outside the selected epochs is consistent, local reconciliation is full reconciliation. */
  lemma LocalIsFull(l: Ledger, epochs: set<nat>)
    requires forall epoch: nat | epoch !in epochs :: ConsistentAt(l, epoch)
    ensures LocalRegistry(l, epochs) == FullRegistry(l)
    ensures Reconciled(l, epochs).registry == FullRegistry(l)
  {
    hide Candidates, ExactEpochs, BestAt, ConsistentAt;
    forall epoch: nat | epoch !in epochs
      ensures epoch in l.registry <==> epoch in ExactEpochs(l.rows)
      ensures epoch in l.registry ==> BestAt(l, epoch) == l.registry[epoch]
    {
      ConsistentIsSettled(l, epoch);
    }
    assert LocalRegistry(l, epochs) == FullRegistry(l);
    if epochs == {} {
      assert l.registry == FullRegistry(l);
    }
  }

  // ------------------------------------------------------- what an import leaves

  lemma TouchedIff(imp: Import, epoch: nat)
    ensures epoch in Touched(imp) <==> Touches(imp, epoch)
  {
  }

  /** A row of the merged table is a kept row or one the import inserted. */
  lemma MergedRow(l: Ledger, imp: Import, id: EventId)
    ensures id in Merged(l, imp).rows <==> id in Kept(l, imp) || id in Inserted(l.registry, imp)
    ensures id in Kept(l, imp) ==> Merged(l, imp).rows[id] == l.rows[id]
    ensures id in Merged(l, imp).rows && id !in Kept(l, imp) ==>
              exists i :: 0 <= i < |imp.events| && Merged(l, imp).rows[id] == ToRow(imp.source, imp.events[i])
                          && IdOf(imp.source, imp.events[i]) == id && Wins(l.registry, imp, imp.events[i].epoch)
  {
    hide Wins, ToRow, IdOf;
    if id in Inserted(l.registry, imp) && id !in Kept(l, imp) {
      var j :| 0 <= j < |imp.events| && Wins(l.registry, imp, imp.events[j].epoch) && IdOf(imp.source, imp.events[j]) == id;
      var row := FirstWith(imp, id).value;
      var i :| 0 <= i < |imp.events| && row == ToRow(imp.source, imp.events[i]) && IdOf(imp.source, imp.events[i]) == id;
      SameEpoch(imp.source, imp.events[i], imp.events[j]);
    }
  }

  lemma SameEpoch(source: string, e: RawEvent, f: RawEvent)
    requires IdOf(source, e) == IdOf(source, f)
    ensures e.epoch == f.epoch
  {
  }

  lemma MergedWellKeyed(l: Ledger, imp: Import)
    requires WellKeyed(l.rows)
    ensures WellKeyed(Merged(l, imp).rows)
  {
    hide Merged, Inserted;
    forall id | id in Merged(l, imp).rows
      ensures var row := Merged(l, imp).rows[id];
              && row.id == id && (row.exact <==> id.ExactId?)
              && (row.exact ==> id.source == row.source && id.epoch == row.epoch)
    {
      MergedRow(l, imp, id);
    }
  }

  /** In an epoch it takes over only the import's source is left; elsewhere nothing changes. */
  lemma MergedCandidates(l: Ledger, imp: Import, epoch: nat)
    requires WellKeyed(l.rows)
    ensures Candidates(Merged(l, imp).rows, epoch)
         == if Wins(l.registry, imp, epoch) then {imp.source} else Candidates(l.rows, epoch)
  {
    hide Merged, Inserted;
    var rows := Merged(l, imp).rows;
    forall source | source in Candidates(rows, epoch)
      ensures if Wins(l.registry, imp, epoch) then source == imp.source else source in Candidates(l.rows, epoch)
    {
      var id :| id in rows && rows[id].exact && rows[id].epoch == epoch && rows[id].source == source;
      MergedRow(l, imp, id);
    }
    if Wins(l.registry, imp, epoch) {
      var i :| 0 <= i < |imp.events| && imp.events[i].epoch == epoch;
      var id := IdOf(imp.source, imp.events[i]);
      assert id in Inserted(l.registry, imp) by { InsertedHas(l.registry, imp, i); }
      MergedRow(l, imp, id);
      MergedWellKeyed(l, imp);
      assert rows[id].source == imp.source && rows[id].epoch == epoch && rows[id].exact;
      assert imp.source in Candidates(rows, epoch);
    } else {
      forall source | source in Candidates(l.rows, epoch) ensures source in Candidates(rows, epoch) {
        var id :| id in l.rows && l.rows[id].exact && l.rows[id].epoch == epoch && l.rows[id].source == source;
        MergedRow(l, imp, id);
        assert rows[id] == l.rows[id];
      }
    }
  }

  lemma InsertedHas(registry: Registry, imp: Import, i: nat)
    requires i < |imp.events| && Wins(registry, imp, imp.events[i].epoch)
    ensures IdOf(imp.source, imp.events[i]) in Inserted(registry, imp)
  {
    hide Wins, IdOf;
  }

  lemma DeletedCandidates(rows: Rows, imp: Import, epoch: nat)
    ensures Candidates(Deleted(rows, imp), epoch)
         == if imp.replace then Candidates(rows, epoch) - {imp.source} else Candidates(rows, epoch)
  {
    if imp.replace {
      var left := Deleted(rows, imp);
      forall source | source in Candidates(rows, epoch) && source != imp.source ensures source in Candidates(left, epoch) {
        var id :| id in rows && rows[id].exact && rows[id].epoch == epoch && rows[id].source == source;
        assert id in left && left[id] == rows[id];
      }
    }
  }

  /** The tables between the insertions and the reconciliation. */
  ghost function Between(l: Ledger, imp: Import): Ledger {
    Merged(l.(rows := Deleted(l.rows, imp)), imp)
  }

  lemma BetweenAt(l: Ledger, imp: Import, epoch: nat)
    requires Consistent(l)
    ensures var m := Between(l, imp);
            && (Wins(l.registry, imp, epoch) ==>
                  Candidates(m.rows, epoch) == {imp.source} && epoch in m.registry && m.registry[epoch] == RankOf(imp))
            && (!Wins(l.registry, imp, epoch) ==>
                  && Previous(m.registry, epoch) == Previous(l.registry, epoch)
                  && Candidates(m.rows, epoch)
                     == if epoch in l.registry && !(imp.replace && l.registry[epoch].source == imp.source)
                        then {l.registry[epoch].source} else {})
            && (epoch !in Affected(l, imp) ==> ConsistentAt(m, epoch))
  {
    hide Deleted, Merged, Candidates, Wins, RankLess, Affected, WellKeyed;
    assert ConsistentAt(l, epoch);
    var start := l.(rows := Deleted(l.rows, imp));
    assert WellKeyed(start.rows) by { DeletedWellKeyed(l.rows, imp); }
    MergedCandidates(start, imp, epoch);
    DeletedCandidates(l.rows, imp, epoch);
    MergedRegistryAt(start, imp, epoch);
    if epoch !in Affected(l, imp) {
      AffectedFacts(l, imp, epoch);
    }
  }

  lemma DeletedWellKeyed(rows: Rows, imp: Import)
    requires WellKeyed(rows)
    ensures WellKeyed(Deleted(rows, imp))
  {
  }

  lemma MergedRegistryAt(l: Ledger, imp: Import, epoch: nat)
    ensures Previous(Merged(l, imp).registry, epoch)
         == if Wins(l.registry, imp, epoch) then Some(RankOf(imp)) else Previous(l.registry, epoch)
  {
    hide Kept, Inserted, RankLess;
  }

  lemma AffectedFacts(l: Ledger, imp: Import, epoch: nat)
    requires epoch !in Affected(l, imp)
    ensures !Wins(l.registry, imp, epoch)
    ensures imp.replace ==> imp.source !in Candidates(l.rows, epoch)
  {
    hide RankLess;
  }

  /** The registry after an import into a consistent ledger: the epochs it wins are its own, a replacing
      import gives up the epochs it held and did not win back, and all others stay. */
  lemma RegistryAfterImport(l: Ledger, imp: Import, epoch: nat)
    requires Consistent(l)
    ensures ConsistentAt(Imported(l, imp), epoch)
    ensures Previous(Imported(l, imp).registry, epoch)
         == if Wins(l.registry, imp, epoch) then Some(RankOf(imp))
            else if imp.replace && epoch in l.registry && l.registry[epoch].source == imp.source then None
            else Previous(l.registry, epoch)
    ensures Imported(l, imp).rows == Between(l, imp).rows
  {
    hide Deleted, Merged, Candidates, Wins, RankLess, Affected, WellKeyed, Between, BestAt, ExactEpochs, LocalRegistry;
    var m := Between(l, imp);
    assert Imported(l, imp) == Reconciled(m, Affected(l, imp)) by { ImportedIs(l, imp); }
    forall e: nat | e !in Affected(l, imp) ensures ConsistentAt(m, e) {
      BetweenAt(l, imp, e);
    }
    LocalIsFull(m, Affected(l, imp));
    BetweenAt(l, imp, epoch);
    CandidatesIffExact(m.rows, epoch);
    if Wins(l.registry, imp, epoch) {
      BestAtSingle(m, epoch, imp.source);
    } else if epoch in l.registry && !(imp.replace && l.registry[epoch].source == imp.source) {
      BestAtSingle(m, epoch, l.registry[epoch].source);
    }
  }

  lemma ImportedIs(l: Ledger, imp: Import)
    ensures Imported(l, imp) == Reconciled(Between(l, imp), Affected(l, imp))
  {
  }

  lemma ImportKeepsConsistent(l: Ledger, imp: Import)
    requires Consistent(l)
    ensures Consistent(Imported(l, imp))
  {
    hide Imported, ConsistentAt, WellKeyed, Merged, Deleted;
    forall epoch: nat ensures ConsistentAt(Imported(l, imp), epoch) {
      RegistryAfterImport(l, imp, epoch);
    }
    RegistryAfterImport(l, imp, 0);
    DeletedWellKeyed(l.rows, imp);
    MergedWellKeyed(l.(rows := Deleted(l.rows, imp)), imp);
  }

  lemma EmptyIsConsistent()
    ensures Consistent(EMPTY)
  {
  }

  /** From an empty ledger every run of imports, replacing or not, keeps an epoch registered exactly when it has
      exact rows, and all of them from the registered source. */
  lemma {:induction false} RunsStayConsistent(imports: seq<Import>)
    ensures Consistent(Run(EMPTY, imports))
    decreases |imports|
  {
    hide Consistent, ImportEvents;
    if imports == [] {
      EmptyIsConsistent();
    } else {
      RunsStayConsistent(imports[..|imports| - 1]);
      OkIsImported(Run(EMPTY, imports[..|imports| - 1]), imports[|imports| - 1]);
      ImportKeepsConsistent(Run(EMPTY, imports[..|imports| - 1]), imports[|imports| - 1]);
    }
  }

  lemma OkIsImported(l: Ledger, imp: Import)
    ensures ImportEvents(l, imp).Ok? <==>
              && ValidLabel(imp.source) && imp.priority >= 1 && !(imp.replace && imp.events == [])
              && !RebuildFails(Imported(l, imp))
    ensures ImportEvents(l, imp).Ok? ==> ImportEvents(l, imp).value == Imported(l, imp)
  {
    hide RebuildFails, Imported;
  }
}
