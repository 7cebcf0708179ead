/**
 Imports without replacement converge. The ledger after a run is a closed form of the
 imports that were accepted (`RunHasClosedForm`): every touched epoch belongs to the
 source of greatest rank, and the rows are the union by id of that source's events.
 Order and repetition do not show, up to the columns no id covers (`ImportsConverge`).
 An import is turned down exactly when it would insert a malformed liability
 (`AcceptedIff`); imports without one are accepted in every run (`SaneIsAccepted`).
 */
module ImportConvergence {
  import opened ByteStrings
  import opened RewardRows
  import opened Liabilities
  import opened RewardImports

  /** Imports without replacement, with one priority for each source. */
  ghost predicate Steady(imports: seq<Import>, priorities: string -> int) {
    forall imp | imp in imports :: !imp.replace && imp.priority == priorities(imp.source)
  }

  /** The imports of a run that were accepted. */
  ghost function Accepted(imports: seq<Import>): seq<Import> {
    if imports == [] then []
    else
      var front, last := imports[..|imports| - 1], imports[|imports| - 1];
      if ImportEvents(Run(EMPTY, front), last).Ok? then Accepted(front) + [last] else Accepted(front)
  }

  ghost predicate TouchedBy(imports: seq<Import>, epoch: nat) {
    exists imp :: imp in imports && Touches(imp, epoch)
  }

  /** No import that touches the epoch ranks above `r`. */
  ghost predicate Tops(imports: seq<Import>, r: Registration, epoch: nat) {
    forall imp | imp in imports && Touches(imp, epoch) :: !RankLess(r, RankOf(imp))
  }

  ghost predicate ComesFrom(imports: seq<Import>, source: string, epoch: nat) {
    exists imp :: imp in imports && Touches(imp, epoch) && imp.source == source
  }

  ghost predicate Registered(registry: Registry, source: string, epoch: nat) {
    epoch in registry && registry[epoch].source == source
  }

  /** The row of the first import that has an event with this id. */
  ghost function FirstOf(imports: seq<Import>, id: EventId): Option<Row> {
    if imports == [] then None
    else
      var earlier := FirstOf(imports[..|imports| - 1], id);
      if earlier.Some? then earlier else FirstWith(imports[|imports| - 1], id)
  }

  /** The registry holds, for each touched epoch, the greatest rank among the imports that touch it. */
  ghost predicate RegistryForm(registry: Registry, imports: seq<Import>, priorities: string -> int) {
    && (forall epoch: nat :: epoch in registry <==> TouchedBy(imports, epoch))
    && (forall epoch | epoch in registry ::
          && Tops(imports, registry[epoch], epoch) && ComesFrom(imports, registry[epoch].source, epoch)
          && registry[epoch].priority == priorities(registry[epoch].source))
  }

  ghost predicate Canonical(registry: Registry, id: EventId) {
    id.ExactId? && Registered(registry, id.source, id.epoch)
  }

  /** The rows are the union by id of the events of the registered sources. */
  ghost predicate RowsForm(l: Ledger, imports: seq<Import>) {
    && (forall id :: id in l.rows <==> Canonical(l.registry, id) && FirstOf(imports, id).Some?)
    && (forall id | id in l.rows :: l.rows[id] == FirstOf(imports, id).value)
  }

  ghost predicate ClosedForm(l: Ledger, imports: seq<Import>, priorities: string -> int) {
    Consistent(l) && RegistryForm(l.registry, imports, priorities) && RowsForm(l, imports)
  }

  // ----------------------------------------------------------------- the registry

  lemma WinnerStep(registry: Registry, imports: seq<Import>, priorities: string -> int, imp: Import, epoch: nat)
    requires RegistryForm(registry, imports, priorities)
    ensures Wins(registry, imp, epoch) ==> Tops(imports + [imp], RankOf(imp), epoch)
    ensures !Wins(registry, imp, epoch) && epoch in registry ==> Tops(imports + [imp], registry[epoch], epoch)
  {
    hide RankLess, Touches;
    var all := imports + [imp];
    RankTotal(RankOf(imp), RankOf(imp));
    if epoch in registry {
      RankTotal(RankOf(imp), registry[epoch]);
    }
    if Wins(registry, imp, epoch) {
      forall other | other in all && Touches(other, epoch) ensures !RankLess(RankOf(imp), RankOf(other)) {
        if other in imports {
          assert TouchedBy(imports, epoch);
          if RankLess(RankOf(imp), RankOf(other)) && RankLess(registry[epoch], RankOf(imp)) {
            RankTransitive(registry[epoch], RankOf(imp), RankOf(other));
          }
        }
      }
    }
  }

  lemma RegistryStep(l: Ledger, imports: seq<Import>, priorities: string -> int, imp: Import)
    requires Consistent(l) && RegistryForm(l.registry, imports, priorities) && !imp.replace
    requires imp.priority == priorities(imp.source)
    ensures RegistryForm(Imported(l, imp).registry, imports + [imp], priorities)
  {
    hide Consistent, RankLess, Touches, Imported, Wins, Tops;
    var registry, all := Imported(l, imp).registry, imports + [imp];
    forall epoch: nat
      ensures epoch in registry <==> TouchedBy(all, epoch)
      ensures epoch in registry ==>
                && Tops(all, registry[epoch], epoch) && ComesFrom(all, registry[epoch].source, epoch)
                && registry[epoch].priority == priorities(registry[epoch].source)
    {
      RegistryAfterImport(l, imp, epoch);
      WinnerStep(l.registry, imports, priorities, imp, epoch);
      WinsFacts(l.registry, imp, epoch);
      TouchedBySnoc(imports, imp, epoch);
      assert Previous(registry, epoch) == if Wins(l.registry, imp, epoch) then Some(RankOf(imp)) else Previous(l.registry, epoch);
    }
  }

  lemma WinsFacts(registry: Registry, imp: Import, epoch: nat)
    ensures Wins(registry, imp, epoch) ==> Touches(imp, epoch)
    ensures Touches(imp, epoch) && !Wins(registry, imp, epoch) ==> epoch in registry
  {
  }

  lemma TouchedBySnoc(imports: seq<Import>, imp: Import, epoch: nat)
    ensures TouchedBy(imports + [imp], epoch) <==> TouchedBy(imports, epoch) || Touches(imp, epoch)
    ensures forall source :: (ComesFrom(imports + [imp], source, epoch)
                              <==> ComesFrom(imports, source, epoch) || (Touches(imp, epoch) && imp.source == source))
  {
    hide Touches;
    assert imp in imports + [imp];
    assert forall other | other in imports :: other in imports + [imp];
  }

  /** A source that is overtaken in an epoch never supplied anything that is missing afterwards. */
  lemma SamePlace(l: Ledger, imports: seq<Import>, priorities: string -> int, imp: Import, source: string, epoch: nat)
    requires RegistryForm(l.registry, imports, priorities) && imp.priority == priorities(imp.source)
    requires forall other | other in imports :: other.priority == priorities(other.source)
    ensures Wins(l.registry, imp, epoch) && source == imp.source && ComesFrom(imports, source, epoch) ==>
              Registered(l.registry, source, epoch)
    ensures !Wins(l.registry, imp, epoch) && Touches(imp, epoch) ==> !Registered(l.registry, imp.source, epoch)
  {
    hide Touches, RankLess;
    if Wins(l.registry, imp, epoch) && source == imp.source && ComesFrom(imports, source, epoch) {
      var other :| other in imports && Touches(other, epoch) && other.source == source;
      assert RankOf(other) == RankOf(imp);
      assert TouchedBy(imports, epoch);
      RankTotal(l.registry[epoch], RankOf(imp));
    }
    RankTotal(RankOf(imp), RankOf(imp));
  }

  /** Where an import without replacement changes who is registered. */
  lemma RegisteredAfter(l: Ledger, imp: Import, source: string, epoch: nat)
    requires Consistent(l) && !imp.replace
    ensures Registered(Imported(l, imp).registry, source, epoch)
       <==> if Wins(l.registry, imp, epoch) then source == imp.source else Registered(l.registry, source, epoch)
    ensures Imported(l, imp).rows == Merged(l, imp).rows
  {
    hide Consistent, RankLess, Imported, Wins, Merged;
    RegistryAfterImport(l, imp, epoch);
    assert Previous(Imported(l, imp).registry, epoch)
        == if Wins(l.registry, imp, epoch) then Some(RankOf(imp)) else Previous(l.registry, epoch);
    assert l.(rows := Deleted(l.rows, imp)) == l;
  }

  // --------------------------------------------------------------------- the rows

  /** An import with an event of this id is from the id's source and touches the id's epoch. */
  lemma HolderFacts(imp: Import, id: EventId)
    requires FirstWith(imp, id).Some?
    ensures id.ExactId? && imp.source == id.source && Touches(imp, id.epoch)
    ensures exists i :: 0 <= i < |imp.events| && IdOf(imp.source, imp.events[i]) == id
                        && FirstWith(imp, id).value == ToRow(imp.source, imp.events[i])
  {
  }

  lemma FirstOfSnoc(imports: seq<Import>, imp: Import, id: EventId)
    ensures FirstOf(imports + [imp], id)
         == if FirstOf(imports, id).Some? then FirstOf(imports, id) else FirstWith(imp, id)
  {
    hide FirstWith;
    assert (imports + [imp])[..|imports|] == imports;
  }

  lemma {:induction false} FirstOfHolder(imports: seq<Import>, id: EventId)
    ensures FirstOf(imports, id).Some? <==> exists imp :: imp in imports && FirstWith(imp, id).Some?
    ensures FirstOf(imports, id).Some? ==> exists imp :: imp in imports && FirstWith(imp, id) == FirstOf(imports, id)
    decreases |imports|
  {
    hide FirstWith;
    if imports != [] {
      var front, last := imports[..|imports| - 1], imports[|imports| - 1];
      assert imports == front + [last];
      FirstOfHolder(front, id);
      assert forall imp | imp in front :: imp in imports;
      assert last in imports;
    }
  }

  /** An id some earlier import has comes from that import's source, in an epoch it touches. */
  lemma EarlierHolder(imports: seq<Import>, id: EventId)
    requires FirstOf(imports, id).Some?
    ensures id.ExactId? && ComesFrom(imports, id.source, id.epoch)
  {
    hide FirstWith, Touches;
    FirstOfHolder(imports, id);
    var imp :| imp in imports && FirstWith(imp, id).Some?;
    HolderFacts(imp, id);
  }

  lemma InsertedIff(registry: Registry, imp: Import, id: EventId)
    ensures id in Inserted(registry, imp) <==> FirstWith(imp, id).Some? && Wins(registry, imp, id.epoch)
    ensures FirstWith(imp, id).Some? ==> id.ExactId?
  {
    hide RankLess;
    if FirstWith(imp, id).Some? {
      HolderFacts(imp, id);
    }
  }

  /** The merged table, with the row each id gets. */
  lemma MergedTable(l: Ledger, imp: Import, id: EventId)
    ensures id in Merged(l, imp).rows <==> id in Kept(l, imp) || id in Inserted(l.registry, imp)
    ensures id in Kept(l, imp) ==> Merged(l, imp).rows[id] == l.rows[id]
    ensures id in Merged(l, imp).rows && id !in Kept(l, imp) ==>
              FirstWith(imp, id).Some? && Merged(l, imp).rows[id] == FirstWith(imp, id).value
  {
    hide Wins, ToRow, IdOf;
  }

  /** A row of a well-keyed table is kept unless its epoch goes to another source. */
  lemma KeptIff(l: Ledger, imp: Import, id: EventId)
    requires WellKeyed(l.rows) && id in l.rows && id.ExactId?
    ensures id in Kept(l, imp) <==> id.source == imp.source || !Wins(l.registry, imp, id.epoch)
  {
    hide Wins;
  }

  /** The rows after one more import are the closed form of one more import. */
  lemma RowStep(l: Ledger, imports: seq<Import>, priorities: string -> int, imp: Import, id: EventId)
    requires ClosedForm(l, imports, priorities) && Steady(imports + [imp], priorities)
    ensures var next := Imported(l, imp);
            && (id in next.rows <==> Canonical(next.registry, id) && FirstOf(imports + [imp], id).Some?)
            && (id in next.rows ==> next.rows[id] == FirstOf(imports + [imp], id).value)
  {
    hide RankLess, Imported, Wins, Merged, Inserted, Kept, ConsistentAt, RegistryForm, FirstWith, FirstOf, ComesFrom, Touches, Registered;
    assert imp in imports + [imp] && forall other | other in imports :: other in imports + [imp];
    assert id in l.rows <==> Canonical(l.registry, id) && FirstOf(imports, id).Some?;
    FirstOfSnoc(imports, imp, id);
    RegisteredAfter(l, imp, imp.source, 0);
    MergedTable(l, imp, id);
    InsertedIff(l.registry, imp, id);
    if id.ExactId? {
      RegisteredAfter(l, imp, id.source, id.epoch);
      if id in l.rows {
        KeptIff(l, imp, id);
      }
      KeptBefore(l, imp, id);
      if FirstWith(imp, id).Some? {
        HolderFacts(imp, id);
      }
      if FirstOf(imports, id).Some? {
        EarlierHolder(imports, id);
      }
      SamePlace(l, imports, priorities, imp, id.source, id.epoch);
    } else {
      KeptBefore(l, imp, id);
      if FirstOf(imports, id).Some? {
        EarlierHolder(imports, id);
      }
    }
  }

  lemma KeptBefore(l: Ledger, imp: Import, id: EventId)
    ensures id in Kept(l, imp) ==> id in l.rows
  {
  }

  lemma ImportStep(l: Ledger, imports: seq<Import>, priorities: string -> int, imp: Import)
    requires ClosedForm(l, imports, priorities) && Steady(imports + [imp], priorities)
    ensures ClosedForm(Imported(l, imp), imports + [imp], priorities)
  {
    hide Consistent, RegistryForm, Imported, Canonical, FirstOf;
    assert imp in imports + [imp];
    ImportKeepsConsistent(l, imp);
    RegistryStep(l, imports, priorities, imp);
    forall id
      ensures var next := Imported(l, imp);
              && (id in next.rows <==> Canonical(next.registry, id) && FirstOf(imports + [imp], id).Some?)
              && (id in next.rows ==> next.rows[id] == FirstOf(imports + [imp], id).value)
    {
      RowStep(l, imports, priorities, imp, id);
    }
  }

  lemma EmptyClosedForm(priorities: string -> int)
    ensures ClosedForm(EMPTY, [], priorities)
  {
    EmptyIsConsistent();
  }

  lemma {:induction false} AcceptedAreSteady(imports: seq<Import>, priorities: string -> int)
    requires Steady(imports, priorities)
    ensures Steady(Accepted(imports), priorities)
    decreases |imports|
  {
    hide ImportEvents, Run;
    if imports != [] {
      AcceptedAreSteady(imports[..|imports| - 1], priorities);
    }
  }

  /** Every run ends in the closed form of its accepted imports, and never with a malformed liability. */
  lemma {:induction false} RunHasClosedForm(imports: seq<Import>, priorities: string -> int)
    requires Steady(imports, priorities)
    ensures ClosedForm(Run(EMPTY, imports), Accepted(imports), priorities)
    ensures !RebuildFails(Run(EMPTY, imports))
    decreases |imports|
  {
    hide ClosedForm, ImportEvents, RebuildFails;
    AcceptedAreSteady(imports, priorities);
    if imports == [] {
      EmptyClosedForm(priorities);
      EmptyNeverFails();
    } else {
      var front, last := imports[..|imports| - 1], imports[|imports| - 1];
      RunHasClosedForm(front, priorities);
      var l := Run(EMPTY, front);
      OkIsImported(l, last);
      if ImportEvents(l, last).Ok? {
        ImportStep(l, Accepted(front), priorities, last);
      }
    }
  }

  lemma EmptyNeverFails()
    ensures !RebuildFails(EMPTY)
  {
  }

  // ------------------------------------------------------------------ convergence

  ghost predicate SameImports(a: seq<Import>, b: seq<Import>) {
    forall imp :: imp in a <==> imp in b
  }

  /** The closed form of the registry determines it. */
  lemma RegistryUnique(r: Registry, a: seq<Import>, t: Registry, b: seq<Import>, priorities: string -> int, epoch: nat)
    requires RegistryForm(r, a, priorities) && RegistryForm(t, b, priorities)
    requires Steady(a, priorities) && Steady(b, priorities) && SameImports(a, b)
    ensures Previous(r, epoch) == Previous(t, epoch)
  {
    hide RankLess, Touches;
    assert TouchedBy(a, epoch) <==> TouchedBy(b, epoch);
    if epoch in r {
      var p :| p in a && Touches(p, epoch) && p.source == r[epoch].source;
      var q :| q in b && Touches(q, epoch) && q.source == t[epoch].source;
      assert RankOf(p) == r[epoch] && RankOf(q) == t[epoch];
      RankTotal(r[epoch], t[epoch]);
    }
  }

  lemma SameRegistry(r: Registry, t: Registry)
    requires forall epoch: nat :: Previous(r, epoch) == Previous(t, epoch)
    ensures r == t
  {
    forall epoch: nat
      ensures epoch in r <==> epoch in t
      ensures epoch in r ==> r[epoch] == t[epoch]
    {
      assert Previous(r, epoch) == Previous(t, epoch);
    }
  }

  /** Rows that agree in everything their id covers. */
  ghost predicate SameButExtras(a: Row, b: Row) {
    a.(extras := b.extras) == b
  }

  lemma FirstRowsAgree(p: Import, q: Import, id: EventId)
    requires FirstWith(p, id).Some? && FirstWith(q, id).Some?
    ensures SameButExtras(FirstWith(p, id).value, FirstWith(q, id).value)
  {
    hide IdOf, ToRow, FirstWith;
    HolderFacts(p, id);
    HolderFacts(q, id);
    var i :| 0 <= i < |p.events| && IdOf(p.source, p.events[i]) == id && FirstWith(p, id).value == ToRow(p.source, p.events[i]);
    var j :| 0 <= j < |q.events| && IdOf(q.source, q.events[j]) == id && FirstWith(q, id).value == ToRow(q.source, q.events[j]);
    IdCoversColumns(p.source, p.events[i], q.source, q.events[j]);
  }

  /** Imports without replacement converge: two runs that accept the same imports, in any order and with any
      repetition, register the same sources and hold the same rows up to the columns no id covers. */
  lemma ImportsConverge(a: seq<Import>, b: seq<Import>, priorities: string -> int)
    requires Steady(a, priorities) && Steady(b, priorities) && SameImports(Accepted(a), Accepted(b))
    ensures Run(EMPTY, a).registry == Run(EMPTY, b).registry
    ensures Run(EMPTY, a).rows.Keys == Run(EMPTY, b).rows.Keys
    ensures forall id | id in Run(EMPTY, a).rows :: SameButExtras(Run(EMPTY, a).rows[id], Run(EMPTY, b).rows[id])
  {
    hide Run, RegistryForm, SameButExtras, Consistent, Steady, FirstOf, FirstWith, Canonical, Accepted;
    var l, m := Run(EMPTY, a), Run(EMPTY, b);
    AcceptedAreSteady(a, priorities);
    AcceptedAreSteady(b, priorities);
    RunHasClosedForm(a, priorities);
    RunHasClosedForm(b, priorities);
    forall epoch: nat ensures Previous(l.registry, epoch) == Previous(m.registry, epoch) {
      RegistryUnique(l.registry, Accepted(a), m.registry, Accepted(b), priorities, epoch);
    }
    SameRegistry(l.registry, m.registry);
    forall id
      ensures id in l.rows <==> id in m.rows
      ensures id in l.rows ==> SameButExtras(l.rows[id], m.rows[id])
    {
      FirstOfHolder(Accepted(a), id);
      FirstOfHolder(Accepted(b), id);
      if id in l.rows {
        var p :| p in Accepted(a) && FirstWith(p, id) == FirstOf(Accepted(a), id);
        var q :| q in Accepted(b) && FirstWith(q, id) == FirstOf(Accepted(b), id);
        FirstRowsAgree(p, q, id);
      }
    }
  }

  // ------------------------------------------------------------------- acceptance

  /** The import would insert a malformed liability: a new row of an epoch it takes over. */
  ghost predicate Spoils(l: Ledger, imp: Import, id: EventId) {
    && FirstWith(imp, id).Some? && id !in l.rows && Wins(l.registry, imp, id.epoch)
    && FirstWith(imp, id).value.kind == Invitee && Parse(FirstWith(imp, id).value).Malformed?
  }

  /** A kept canonical row was canonical before. */
  lemma KeptWasCanonical(l: Ledger, imp: Import, id: EventId)
    requires Consistent(l) && !imp.replace && id in Kept(l, imp)
    requires CanonicalInvitee(Imported(l, imp), l.rows[id])
    ensures CanonicalInvitee(l, l.rows[id])
  {
    hide Imported, Wins, RankLess;
    var row := l.rows[id];
    RegisteredAfter(l, imp, row.source, row.epoch);
    assert row.source in Candidates(l.rows, row.epoch);
    assert ConsistentAt(l, row.epoch);
  }

  /** Exactly which imports a run without malformed liabilities turns down. */
  lemma AcceptedIff(l: Ledger, imp: Import)
    requires Consistent(l) && !RebuildFails(l) && !imp.replace
    ensures ImportEvents(l, imp).Ok? <==>
              ValidLabel(imp.source) && imp.priority >= 1 && forall id :: !Spoils(l, imp, id)
  {
    hide ImportEvents, Imported, Consistent, ValidLabel, Parse, FirstWith, Wins, Merged, Kept, Inserted, Registered;
    var next := Imported(l, imp);
    OkIsImported(l, imp);
    RegisteredAfter(l, imp, imp.source, 0);
    if id :| id in next.rows && CanonicalInvitee(next, next.rows[id]) && Parse(next.rows[id]).Malformed? {
      MergedTable(l, imp, id);
      if id in Kept(l, imp) {
        KeptBefore(l, imp, id);
        KeptWasCanonical(l, imp, id);
      }
      InsertedIff(l.registry, imp, id);
      NewIfNotKept(l, imp, id);
      assert Spoils(l, imp, id);
    }
    if id :| Spoils(l, imp, id) {
      SpoiltRow(l, imp, id);
    }
  }

  lemma NewIfNotKept(l: Ledger, imp: Import, id: EventId)
    requires Consistent(l) && FirstWith(imp, id).Some? && id !in Kept(l, imp)
    ensures id !in l.rows
  {
    hide Wins, ConsistentAt, FirstWith;
    HolderFacts(imp, id);
  }

  lemma SpoiltRow(l: Ledger, imp: Import, id: EventId)
    requires Consistent(l) && !imp.replace && Spoils(l, imp, id)
    ensures RebuildFails(Imported(l, imp))
  {
    hide Imported, Consistent, Parse, FirstWith, Wins, Merged, Kept, Inserted;
    MergedTable(l, imp, id);
    InsertedIff(l.registry, imp, id);
    KeptBefore(l, imp, id);
    HolderFacts(imp, id);
    RegisteredAfter(l, imp, imp.source, id.epoch);
    assert CanonicalInvitee(Imported(l, imp), FirstWith(imp, id).value);
  }

  /** Label and priority are in order, and none of the rows the import has for its ids is a malformed liability. */
  ghost predicate Sane(imp: Import) {
    && ValidLabel(imp.source) && imp.priority >= 1
    && forall id | FirstWith(imp, id).Some? && FirstWith(imp, id).value.kind == Invitee :: !Parse(FirstWith(imp, id).value).Malformed?
  }

  /** A sane import is accepted by every ledger without malformed liabilities. */
  lemma SaneStep(l: Ledger, imp: Import)
    requires Consistent(l) && !RebuildFails(l) && !imp.replace && Sane(imp)
    ensures ImportEvents(l, imp).Ok?
  {
    hide ImportEvents, RebuildFails, Consistent, ValidLabel, Parse, FirstWith, Wins;
    AcceptedIff(l, imp);
  }

  /** Sane imports are all accepted. */
  lemma {:induction false} SaneIsAccepted(imports: seq<Import>, priorities: string -> int)
    requires Steady(imports, priorities) && forall imp | imp in imports :: Sane(imp)
    ensures Accepted(imports) == imports
    decreases |imports|
  {
    hide ImportEvents, Run, RebuildFails, Consistent, ValidLabel, Parse, FirstWith, Wins, RegistryForm, RowsForm;
    if imports != [] {
      var front, last := imports[..|imports| - 1], imports[|imports| - 1];
      SaneIsAccepted(front, priorities);
      RunHasClosedForm(front, priorities);
      assert last in imports;
      SaneStep(Run(EMPTY, front), last);
    }
  }

  /** Sane imports converge whatever their order and repetition. */
  lemma SaneImportsConverge(a: seq<Import>, b: seq<Import>, priorities: string -> int)
    requires Steady(a, priorities) && (forall imp | imp in a :: Sane(imp)) && SameImports(a, b)
    ensures Run(EMPTY, a).registry == Run(EMPTY, b).registry
    ensures Run(EMPTY, a).rows.Keys == Run(EMPTY, b).rows.Keys
    ensures forall id | id in Run(EMPTY, a).rows :: SameButExtras(Run(EMPTY, a).rows[id], Run(EMPTY, b).rows[id])
  {
    hide Run, Sane, SameButExtras, Accepted;
    SaneIsAccepted(a, priorities);
    SaneIsAccepted(b, priorities);
    ImportsConverge(a, b, priorities);
  }
}
