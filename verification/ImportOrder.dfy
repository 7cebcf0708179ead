/**
 When the order and repetition of imports show, exactly.

 - Every order accepts everything if and only if all imports are sane
   (`EveryOrderAcceptsIff`).
 - Registry and ids ignore the order if and only if every other import is turned down
   by the ledger of the sane ones or adds nothing to it (`IdsIgnoreOrderIff`);
   `MalformedImportDiverges` is a pair of imports for which neither holds.
 - The whole ledger of sane imports ignores the order if and only if no two imports of
   a leading source give different rows to one id (`LedgerIgnoresOrder`);
   `CounterpartyDependsOnOrder` is a pair that does.
 */
module ImportOrder {
  import opened ByteStrings
  import opened RewardRows
  import opened Liabilities
  import opened RewardImports
  import opened ImportConvergence

  // ------------------------------------------------------------- accepting everything

  lemma {:induction false} AcceptedIsShorter(imports: seq<Import>)
    ensures |Accepted(imports)| <= |imports|
    decreases |imports|
  {
    hide ImportEvents, Run;
    if imports != [] {
      AcceptedIsShorter(imports[..|imports| - 1]);
    }
  }

  /** When a run accepts everything, its first import is accepted by the empty ledger. */
  lemma {:induction false} FirstIsAccepted(imports: seq<Import>)
    requires Accepted(imports) == imports && imports != []
    ensures ImportEvents(EMPTY, imports[0]).Ok?
    decreases |imports|
  {
    hide ImportEvents;
    var front, last := imports[..|imports| - 1], imports[|imports| - 1];
    AcceptedIsShorter(front);
    assert Accepted(front) == front;
    if front == [] {
      assert Run(EMPTY, front) == EMPTY;
    } else {
      FirstIsAccepted(front);
    }
  }

  /** The empty ledger accepts an import exactly when it is sane. */
  lemma EmptyAcceptsIff(imp: Import)
    requires !imp.replace
    ensures ImportEvents(EMPTY, imp).Ok? <==> Sane(imp)
  {
    hide ImportEvents, Consistent, ValidLabel, Parse, FirstWith, RankLess, RebuildFails;
    EmptyIsConsistent();
    EmptyNeverFails();
    AcceptedIff(EMPTY, imp);
    forall id | FirstWith(imp, id).Some? ensures id.ExactId? && Wins(EMPTY.registry, imp, id.epoch) {
      HolderFacts(imp, id);
    }
    forall id ensures Spoils(EMPTY, imp, id) <==>
                        FirstWith(imp, id).Some? && FirstWith(imp, id).value.kind == Invitee && Parse(FirstWith(imp, id).value).Malformed? {
    }
  }

  /** Every order and repetition of the imports is accepted in full if and only if every import is sane. */
  lemma EveryOrderAcceptsIff(a: seq<Import>, priorities: string -> int)
    requires Steady(a, priorities)
    ensures (forall b | SameImports(a, b) :: Accepted(b) == b) <==> (forall imp | imp in a :: Sane(imp))
  {
    hide Accepted, Sane, ImportEvents;
    if forall imp | imp in a :: Sane(imp) {
      forall b | SameImports(a, b) ensures Accepted(b) == b {
        SaneIsAccepted(b, priorities);
      }
    }
    if forall b | SameImports(a, b) :: Accepted(b) == b {
      forall imp | imp in a ensures Sane(imp) {
        assert SameImports(a, [imp] + a);
        FirstIsAccepted([imp] + a);
        EmptyAcceptsIff(imp);
      }
    }
  }

  // -------------------------------------------------------------- registry and ids

  /** The sane imports among these, and the others. */
  ghost function SaneOf(a: seq<Import>): (r: seq<Import>)
    ensures forall imp :: imp in r <==> imp in a && Sane(imp)
  {
    if a == [] then []
    else
      var front := SaneOf(a[..|a| - 1]);
      assert forall imp :: imp in a <==> imp in a[..|a| - 1] || imp == a[|a| - 1];
      if Sane(a[|a| - 1]) then front + [a[|a| - 1]] else front
  }

  ghost function OthersOf(a: seq<Import>): (r: seq<Import>)
    ensures forall imp :: imp in r <==> imp in a && !Sane(imp)
  {
    if a == [] then []
    else
      var front := OthersOf(a[..|a| - 1]);
      assert forall imp :: imp in a <==> imp in a[..|a| - 1] || imp == a[|a| - 1];
      if Sane(a[|a| - 1]) then front else front + [a[|a| - 1]]
  }

  /** In every epoch the import touches it loses, or its source is registered with its rank and the ledger has its ids. */
  ghost predicate AddsNothing(l: Ledger, imp: Import) {
    forall i | 0 <= i < |imp.events| ::
      || !Wins(l.registry, imp, imp.events[i].epoch)
      || (Previous(l.registry, imp.events[i].epoch) == Some(RankOf(imp)) && IdOf(imp.source, imp.events[i]) in l.rows)
  }

  /** The import is turned down by this ledger, or adds nothing to it. */
  ghost predicate Harmless(l: Ledger, imp: Import) {
    ImportEvents(l, imp).Err? || AddsNothing(l, imp)
  }

  /** An import that is sane or adds nothing ranks, in an epoch it touches, at most as the ledger of the sane ones. */
  ghost predicate Bounded(sane: Ledger, h: Import, epoch: nat) {
    epoch in sane.registry && !RankLess(sane.registry[epoch], RankOf(h))
  }

  lemma MemberIsBounded(sane: Ledger, g: seq<Import>, priorities: string -> int, h: Import, epoch: nat)
    requires ClosedForm(sane, g, priorities) && Touches(h, epoch) && (h in g || AddsNothing(sane, h))
    ensures Bounded(sane, h, epoch)
  {
    hide RankLess, RowsForm, Consistent, IdOf;
    if h in g {
      assert TouchedBy(g, epoch);
    } else {
      var i :| 0 <= i < |h.events| && h.events[i].epoch == epoch;
      if epoch in sane.registry {
        RankTotal(RankOf(h), sane.registry[epoch]);
      }
      RankTotal(RankOf(h), RankOf(h));
    }
  }

  /** A bounded import that holds an id of its source's leading epoch: the ledger of the sane ones has the id. */
  lemma HeldIsThere(sane: Ledger, g: seq<Import>, priorities: string -> int, h: Import, id: EventId)
    requires ClosedForm(sane, g, priorities) && (h in g || AddsNothing(sane, h)) && FirstWith(h, id).Some?
    requires id.ExactId? && Previous(sane.registry, id.epoch) == Some(RankOf(h))
    ensures id in sane.rows
  {
    hide RankLess, RegistryForm, Consistent, FirstWith, FirstOf;
    HolderFacts(h, id);
    if h in g {
      FirstOfHolder(g, id);
    } else {
      var i :| 0 <= i < |h.events| && IdOf(h.source, h.events[i]) == id;
      RankTotal(RankOf(h), RankOf(h));
      assert h.events[i].epoch == id.epoch;
    }
  }

  /** What the ledger of the sane imports turns down, no ledger of accepted imports accepts: the ones accepted so far
      are sane or add nothing. */
  lemma StaysTurnedDown(sane: Ledger, g: seq<Import>, l: Ledger, accepted: seq<Import>, priorities: string -> int, imp: Import)
    requires ClosedForm(sane, g, priorities) && !RebuildFails(sane) && ClosedForm(l, accepted, priorities) && !RebuildFails(l)
    requires Steady(accepted, priorities) && !imp.replace && imp.priority == priorities(imp.source)
    requires forall h | h in accepted :: h in g || AddsNothing(sane, h)
    requires ImportEvents(sane, imp).Err?
    ensures ImportEvents(l, imp).Err?
  {
    hide ImportEvents, RebuildFails, ValidLabel, RegistryForm, RowsForm, Consistent, AddsNothing, Spoils;
    AcceptedIff(sane, imp);
    AcceptedIff(l, imp);
    if id :| Spoils(sane, imp, id) {
      SpoilsToo(sane, g, l, accepted, priorities, imp, id);
    }
  }

  lemma SpoilsToo(sane: Ledger, g: seq<Import>, l: Ledger, accepted: seq<Import>, priorities: string -> int, imp: Import, id: EventId)
    requires ClosedForm(sane, g, priorities) && ClosedForm(l, accepted, priorities) && Steady(accepted, priorities)
    requires imp.priority == priorities(imp.source) && forall h | h in accepted :: h in g || AddsNothing(sane, h)
    requires Spoils(sane, imp, id)
    ensures Spoils(l, imp, id)
  {
    hide Parse, FirstWith, RankLess, Consistent, AddsNothing, Touches, Tops, FirstOf;
    HolderFacts(imp, id);
    var epoch := id.epoch;
    if epoch in l.registry {
      var h :| h in accepted && Touches(h, epoch) && h.source == l.registry[epoch].source;
      assert RankOf(h) == l.registry[epoch];
      MemberIsBounded(sane, g, priorities, h, epoch);
      RanksChain(RankOf(imp), sane.registry[epoch], RankOf(h));
    }
    if id in l.rows {
      FirstOfHolder(accepted, id);
      var h :| h in accepted && FirstWith(h, id).Some?;
      HolderFacts(h, id);
      assert RankOf(h) == RankOf(imp);
      MemberIsBounded(sane, g, priorities, h, epoch);
      RankTotal(RankOf(h), sane.registry[epoch]);
      HeldIsThere(sane, g, priorities, h, id);
    }
  }

  lemma RanksChain(a: Registration, b: Registration, c: Registration)
    requires !RankLess(a, b) && !RankLess(b, c)
    ensures !RankLess(a, c)
  {
    hide RankLess;
    RankTotal(a, b);
    RankTotal(b, c);
    if RankLess(c, b) && RankLess(b, a) {
      RankTransitive(c, b, a);
    }
    RankTotal(a, c);
  }

  ghost predicate SameIds(l: Ledger, m: Ledger) {
    l.registry == m.registry && l.rows.Keys == m.rows.Keys
  }

  /** A ledger of all sane imports, and of others that add nothing to theirs, has their registry and ids. */
  lemma SameAsSane(sane: Ledger, g: seq<Import>, l: Ledger, accepted: seq<Import>, priorities: string -> int)
    requires ClosedForm(sane, g, priorities) && ClosedForm(l, accepted, priorities) && Steady(g, priorities) && Steady(accepted, priorities)
    requires forall h | h in g :: h in accepted
    requires forall h | h in accepted :: h in g || AddsNothing(sane, h)
    ensures SameIds(l, sane)
  {
    hide RankLess, Consistent, AddsNothing, FirstWith, FirstOf, RegistryForm;
    forall epoch: nat ensures Previous(l.registry, epoch) == Previous(sane.registry, epoch) {
      SameEpochAsSane(sane, g, l, accepted, priorities, epoch);
    }
    SameRegistry(l.registry, sane.registry);
    forall id ensures id in l.rows <==> id in sane.rows {
      FirstOfHolder(accepted, id);
      FirstOfHolder(g, id);
      if id in l.rows {
        var h :| h in accepted && FirstWith(h, id).Some?;
        HolderFacts(h, id);
        RegisteredPriority(sane.registry, g, priorities, id.epoch);
        HeldIsThere(sane, g, priorities, h, id);
      }
    }
  }

  lemma RegisteredPriority(registry: Registry, g: seq<Import>, priorities: string -> int, epoch: nat)
    requires RegistryForm(registry, g, priorities)
    ensures epoch in registry ==> registry[epoch].priority == priorities(registry[epoch].source)
  {
  }

  lemma SameEpochAsSane(sane: Ledger, g: seq<Import>, l: Ledger, accepted: seq<Import>, priorities: string -> int, epoch: nat)
    requires ClosedForm(sane, g, priorities) && ClosedForm(l, accepted, priorities) && Steady(g, priorities) && Steady(accepted, priorities)
    requires forall h | h in g :: h in accepted
    requires forall h | h in accepted :: h in g || AddsNothing(sane, h)
    ensures Previous(l.registry, epoch) == Previous(sane.registry, epoch)
  {
    hide RankLess, Consistent, AddsNothing, RowsForm, Touches;
    if epoch in sane.registry {
      var p :| p in g && Touches(p, epoch) && p.source == sane.registry[epoch].source;
      assert RankOf(p) == sane.registry[epoch] && TouchedBy(accepted, epoch);
    }
    if epoch in l.registry {
      var h :| h in accepted && Touches(h, epoch) && h.source == l.registry[epoch].source;
      assert RankOf(h) == l.registry[epoch];
      MemberIsBounded(sane, g, priorities, h, epoch);
      RankTotal(l.registry[epoch], sane.registry[epoch]);
    }
  }

  lemma SteadyPart(a: seq<Import>, b: seq<Import>, priorities: string -> int)
    requires Steady(a, priorities) && forall imp | imp in b :: imp in a
    ensures Steady(b, priorities)
  {
  }

  /** When every import that is not sane is harmless, a run accepts all sane imports, and others only if they add nothing. */
  lemma {:induction false} HarmlessRun(a: seq<Import>, b: seq<Import>, priorities: string -> int)
    requires Steady(a, priorities) && forall imp | imp in b :: imp in a
    requires forall imp | imp in a && !Sane(imp) :: Harmless(Run(EMPTY, SaneOf(a)), imp)
    ensures forall h | h in Accepted(b) :: h in SaneOf(a) || AddsNothing(Run(EMPTY, SaneOf(a)), h)
    ensures forall h | h in b && Sane(h) :: h in Accepted(b)
    decreases |b|
  {
    hide ImportEvents, Run, RebuildFails, RegistryForm, RowsForm, Consistent, AddsNothing, Sane;
    if b != [] {
      var front, last := b[..|b| - 1], b[|b| - 1];
      HarmlessRun(a, front, priorities);
      var g := SaneOf(a);
      SteadyPart(a, g, priorities);
      SteadyPart(a, front, priorities);
      RunHasClosedForm(g, priorities);
      SaneIsAccepted(g, priorities);
      RunHasClosedForm(front, priorities);
      AcceptedAreSteady(front, priorities);
      assert last in b;
      if Sane(last) {
        SaneStep(Run(EMPTY, front), last);
      } else if ImportEvents(Run(EMPTY, g), last).Err? {
        StaysTurnedDown(Run(EMPTY, g), g, Run(EMPTY, front), Accepted(front), priorities, last);
      }
      assert forall h | h in b :: h in front || h == last;
    }
  }

  lemma HarmlessMeansSame(a: seq<Import>, b: seq<Import>, priorities: string -> int)
    requires Steady(a, priorities) && SameImports(a, b)
    requires forall imp | imp in a && !Sane(imp) :: Harmless(Run(EMPTY, SaneOf(a)), imp)
    ensures SameIds(Run(EMPTY, b), Run(EMPTY, SaneOf(a)))
  {
    hide Run, RebuildFails, ClosedForm, Harmless, AddsNothing, Sane, Accepted, SameIds;
    var g := SaneOf(a);
    SteadyPart(a, g, priorities);
    SteadyPart(a, b, priorities);
    HarmlessRun(a, b, priorities);
    RunHasClosedForm(g, priorities);
    SaneIsAccepted(g, priorities);
    RunHasClosedForm(b, priorities);
    AcceptedAreSteady(b, priorities);
    SameAsSane(Run(EMPTY, g), g, Run(EMPTY, b), Accepted(b), priorities);
  }

  // ------------------------------------------------------------- the other direction

  lemma {:induction false} RunConcat(l: Ledger, x: seq<Import>, y: seq<Import>)
    ensures Run(l, x + y) == Run(Run(l, x), y)
    decreases |y|
  {
    hide ImportEvents;
    if y == [] {
      assert x + y == x;
    } else {
      var front := y[..|y| - 1];
      RunConcat(l, x, front);
      assert (x + y)[..|x + y| - 1] == x + front;
    }
  }

  /** Imports that are not sane do nothing to the empty ledger. */
  lemma {:induction false} OthersDoNothing(others: seq<Import>)
    requires forall imp | imp in others :: !imp.replace && !Sane(imp)
    ensures Run(EMPTY, others) == EMPTY
    decreases |others|
  {
    hide ImportEvents, Sane;
    if others != [] {
      var front, last := others[..|others| - 1], others[|others| - 1];
      OthersDoNothing(front);
      assert last in others;
      EmptyAcceptsIff(last);
    }
  }

  /** An accepted import that leaves registry and ids as they were adds nothing. */
  lemma NothingNew(l: Ledger, imp: Import)
    requires Consistent(l) && !imp.replace && SameIds(Imported(l, imp), l)
    ensures AddsNothing(l, imp)
  {
    hide Imported, Consistent, Wins, Merged, Inserted, IdOf, RankLess, Kept;
    forall i | 0 <= i < |imp.events| && Wins(l.registry, imp, imp.events[i].epoch)
      ensures Previous(l.registry, imp.events[i].epoch) == Some(RankOf(imp)) && IdOf(imp.source, imp.events[i]) in l.rows
    {
      var id := IdOf(imp.source, imp.events[i]);
      RegistryAfterImport(l, imp, imp.events[i].epoch);
      RegisteredAfter(l, imp, imp.source, imp.events[i].epoch);
      InsertedHas(l.registry, imp, i);
      MergedTable(l, imp, id);
      assert id in Imported(l, imp).rows.Keys;
    }
  }

  /** The others first, then the sane ones, then perhaps one of the others again. */
  lemma TwoOrders(a: seq<Import>, imp: Import)
    requires imp in a
    ensures SameImports(a, OthersOf(a) + SaneOf(a)) && SameImports(a, OthersOf(a) + SaneOf(a) + [imp])
  {
    hide Sane;
  }

  lemma TwoRuns(a: seq<Import>, priorities: string -> int, imp: Import)
    requires Steady(a, priorities)
    ensures Run(EMPTY, OthersOf(a) + SaneOf(a)) == Run(EMPTY, SaneOf(a))
    ensures var l := Run(EMPTY, SaneOf(a));
            Run(EMPTY, OthersOf(a) + SaneOf(a) + [imp]) == if ImportEvents(l, imp).Ok? then ImportEvents(l, imp).value else l
  {
    hide ImportEvents, Sane;
    OthersDoNothing(OthersOf(a));
    RunConcat(EMPTY, OthersOf(a), SaneOf(a));
    RunConcat(EMPTY, OthersOf(a) + SaneOf(a), [imp]);
    assert [imp][..0] == [];
  }

  lemma SameMeansHarmless(a: seq<Import>, priorities: string -> int, imp: Import)
    requires Steady(a, priorities) && imp in a && !Sane(imp)
    requires forall b, c | SameImports(a, b) && SameImports(a, c) :: SameIds(Run(EMPTY, b), Run(EMPTY, c))
    ensures Harmless(Run(EMPTY, SaneOf(a)), imp)
  {
    hide Run, ImportEvents, RebuildFails, RegistryForm, RowsForm, Consistent, AddsNothing, Sane, SameIds, Imported, SameImports;
    var g := SaneOf(a);
    SteadyPart(a, g, priorities);
    TwoOrders(a, imp);
    TwoRuns(a, priorities, imp);
    assert SameIds(Run(EMPTY, OthersOf(a) + g + [imp]), Run(EMPTY, OthersOf(a) + g));
    RunHasClosedForm(g, priorities);
    OkIsImported(Run(EMPTY, g), imp);
    if ImportEvents(Run(EMPTY, g), imp).Ok? {
      NothingNew(Run(EMPTY, g), imp);
    }
  }

  /** Exactly when registry and ids ignore the order and repetition of imports without replacement: every import that
      is not sane is turned down by the ledger of the sane ones, or adds nothing to it. */
  lemma IdsIgnoreOrderIff(a: seq<Import>, priorities: string -> int)
    requires Steady(a, priorities)
    ensures (forall b, c | SameImports(a, b) && SameImports(a, c) :: SameIds(Run(EMPTY, b), Run(EMPTY, c)))
       <==> (forall imp | imp in a && !Sane(imp) :: Harmless(Run(EMPTY, SaneOf(a)), imp))
  {
    hide Run, Steady, SameImports, Sane, Harmless;
    if forall imp | imp in a && !Sane(imp) :: Harmless(Run(EMPTY, SaneOf(a)), imp) {
      forall b, c | SameImports(a, b) && SameImports(a, c) ensures SameIds(Run(EMPTY, b), Run(EMPTY, c)) {
        HarmlessMeansSame(a, b, priorities);
        HarmlessMeansSame(a, c, priorities);
      }
    }
    if forall b, c | SameImports(a, b) && SameImports(a, c) :: SameIds(Run(EMPTY, b), Run(EMPTY, c)) {
      forall imp | imp in a && !Sane(imp) ensures Harmless(Run(EMPTY, SaneOf(a)), imp) {
        SameMeansHarmless(a, priorities, imp);
      }
    }
  }

  // ----------------------------------------------------- columns no id covers

  /** No import that touches the id's epoch ranks above this one. */
  ghost predicate Leads(a: seq<Import>, p: Import, id: EventId) {
    id.ExactId? && Tops(a, RankOf(p), id.epoch)
  }

  /** All imports of a leading source give an id the same row. */
  ghost predicate OneRowPerId(a: seq<Import>) {
    forall p, q, id | p in a && q in a && FirstWith(p, id).Some? && FirstWith(q, id).Some? && Leads(a, p, id) ::
      FirstWith(p, id) == FirstWith(q, id)
  }

  /** A ledger has the ids of the imports whose rank is not exceeded in the id's epoch. */
  lemma HeldIff(l: Ledger, a: seq<Import>, priorities: string -> int, id: EventId)
    requires ClosedForm(l, a, priorities) && Steady(a, priorities)
    ensures id in l.rows <==> exists p :: p in a && FirstWith(p, id).Some? && Leads(a, p, id)
    ensures forall p | p in a && FirstWith(p, id).Some? && id in l.rows :: Leads(a, p, id)
  {
    hide RankLess, Consistent, FirstWith, FirstOf, Touches;
    FirstOfHolder(a, id);
    forall p | p in a && FirstWith(p, id).Some?
      ensures id.ExactId? && (Leads(a, p, id) <==> Canonical(l.registry, id))
    {
      HolderFacts(p, id);
      assert TouchedBy(a, id.epoch);
      var top :| top in a && Touches(top, id.epoch) && top.source == l.registry[id.epoch].source;
      assert RankOf(top) == l.registry[id.epoch];
      RankTotal(RankOf(p), RankOf(top));
    }
  }

  lemma {:induction false} FirstOfCons(imp: Import, imports: seq<Import>, id: EventId)
    requires FirstWith(imp, id).Some?
    ensures FirstOf([imp] + imports, id) == FirstWith(imp, id)
    decreases |imports|
  {
    hide FirstWith;
    if imports == [] {
      assert [imp] + imports == [imp];
    } else {
      var front := imports[..|imports| - 1];
      FirstOfCons(imp, front, id);
      assert ([imp] + imports)[..|imports|] == [imp] + front;
    }
  }

  /** Two runs over the same sane imports end in the very same ledger if each id has one row. */
  lemma SameLedger(a: seq<Import>, b: seq<Import>, priorities: string -> int)
    requires Steady(a, priorities) && (forall imp | imp in a :: Sane(imp)) && SameImports(a, b) && OneRowPerId(a)
    ensures Run(EMPTY, b) == Run(EMPTY, a)
  {
    hide Run, Sane, FirstWith, FirstOf, RegistryForm, Canonical, Consistent, SameButExtras, Accepted, Leads;
    SaneIsAccepted(a, priorities);
    SaneIsAccepted(b, priorities);
    ImportsConverge(a, b, priorities);
    RunHasClosedForm(a, priorities);
    RunHasClosedForm(b, priorities);
    forall id | id in Run(EMPTY, a).rows ensures Run(EMPTY, a).rows[id] == Run(EMPTY, b).rows[id] {
      FirstOfHolder(a, id);
      FirstOfHolder(b, id);
      HeldIff(Run(EMPTY, a), a, priorities, id);
    }
  }

  /** The row an import of a leading source gives to an id stays, if the import comes first. */
  lemma FirstComeStays(p: Import, a: seq<Import>, priorities: string -> int, id: EventId)
    requires Steady(a, priorities) && (forall imp | imp in a :: Sane(imp)) && p in a
    requires FirstWith(p, id).Some? && Leads(a, p, id)
    ensures SameImports(a, [p] + a)
    ensures id in Run(EMPTY, [p] + a).rows && Some(Run(EMPTY, [p] + a).rows[id]) == FirstWith(p, id)
  {
    hide Run, Sane, FirstWith, FirstOf, RegistryForm, Canonical, Consistent, SameButExtras, Accepted, RankLess, Touches;
    var b := [p] + a;
    SaneIsAccepted(b, priorities);
    RunHasClosedForm(b, priorities);
    FirstOfCons(p, a, id);
    HeldIff(Run(EMPTY, b), b, priorities, id);
    assert p in b && Leads(b, p, id);
  }

  lemma SameLead(a: seq<Import>, p: Import, q: Import, id: EventId)
    requires RankOf(p) == RankOf(q) && Leads(a, p, id)
    ensures Leads(a, q, id)
  {
    hide RankLess, Touches;
  }

  /** Exactly when the whole ledger ignores order and repetition: sane imports end in the same ledger however they
      are ordered and repeated if and only if no two imports of a leading source give different rows to one id. */
  lemma LedgerIgnoresOrder(a: seq<Import>, priorities: string -> int)
    requires Steady(a, priorities) && forall imp | imp in a :: Sane(imp)
    ensures (forall b | SameImports(a, b) :: Run(EMPTY, b) == Run(EMPTY, a)) <==> OneRowPerId(a)
  {
    hide Run, Sane, FirstWith, SameImports, Leads;
    if OneRowPerId(a) {
      forall b | SameImports(a, b) ensures Run(EMPTY, b) == Run(EMPTY, a) {
        SameLedger(a, b, priorities);
      }
    }
    if forall b | SameImports(a, b) :: Run(EMPTY, b) == Run(EMPTY, a) {
      forall p, q, id | p in a && q in a && FirstWith(p, id).Some? && FirstWith(q, id).Some? && Leads(a, p, id)
        ensures FirstWith(p, id) == FirstWith(q, id)
      {
        FirstComeStays(p, a, priorities, id);
        HolderFacts(p, id);
        HolderFacts(q, id);
        assert RankOf(p) == RankOf(q);
        SameLead(a, p, q, id);
        FirstComeStays(q, a, priorities, id);
      }
    }
  }

  // --------------------------------------------------------------- counterexamples

  /** The address, hashes and counterparty of an event. */
  datatype Names = Names(address: string, blockHash: string, txHash: string, invitation: string, counterparty: string)

  function Reward(n: Names, epoch: nat, kind: ReplayKind, eventEpoch: Field): RawEvent {
    RawEvent(n.address, epoch, 1, n.blockHash, kind, 5, 5, 0, Credit, 0, n.txHash, n.invitation,
             Extras(n.counterparty, eventEpoch, Absent, Absent))
  }

  function WithMalformed(n: Names): Import {
    Import("a", 1, [Reward(n, 1, Invitee, Garbage), Reward(n, 2, Proposer, Absent)], false)
  }

  function Stronger(n: Names): Import {
    Import("b", 2, [Reward(n, 1, Proposer, Absent)], false)
  }

  function PriorityOf(source: string): int {
    if source == "b" then 2 else 1
  }

  lemma ProposersAreSane(imp: Import)
    requires imp.source == "a" || imp.source == "b"
    requires imp.priority == PriorityOf(imp.source) && forall i | 0 <= i < |imp.events| :: imp.events[i].kind == Proposer
    ensures Sane(imp)
  {
    hide Parse, FirstWith;
    forall id | FirstWith(imp, id).Some? ensures FirstWith(imp, id).value.kind == Proposer {
      HolderFacts(imp, id);
    }
  }

  /** The stronger import is accepted in any run, and holds epoch 1 afterwards. */
  lemma StrongerTakesEpoch(n: Names)
    ensures Accepted([Stronger(n)]) == [Stronger(n)]
    ensures Run(EMPTY, [Stronger(n)]).registry == map[1 := Registration("b", 2)]
  {
    hide Run, Sane, RebuildFails, RankLess, RowsForm, Consistent, Accepted, ToRow, IdOf;
    var run := [Stronger(n)];
    assert forall imp | imp in run :: imp == Stronger(n);
    ProposersAreSane(Stronger(n));
    SaneIsAccepted(run, PriorityOf);
    RunHasClosedForm(run, PriorityOf);
    var registry := Run(EMPTY, run).registry;
    assert Stronger(n).events[0].epoch == 1 && Touches(Stronger(n), 1);
    assert TouchedBy(run, 1);
    forall epoch | epoch in registry ensures epoch == 1 && registry[epoch] == Registration("b", 2) {
      assert TouchedBy(run, epoch) && ComesFrom(run, registry[epoch].source, epoch);
    }
  }

  lemma MalformedFirstIsTurnedDown(n: Names)
    requires n.invitation != ""
    ensures ImportEvents(EMPTY, WithMalformed(n)).Err?
  {
    hide ImportEvents, Consistent, RankLess;
    EmptyIsConsistent();
    AcceptedIff(EMPTY, WithMalformed(n));
    var id := IdOf("a", WithMalformed(n).events[0]);
    assert FirstWith(WithMalformed(n), id) == Some(ToRow("a", WithMalformed(n).events[0]));
    assert WithMalformed(n).events[0].epoch == 1 && Touches(WithMalformed(n), 1);
    assert Spoils(EMPTY, WithMalformed(n), id);
  }

  lemma MalformedLaterIsAccepted(n: Names)
    ensures ImportEvents(Run(EMPTY, [Stronger(n)]), WithMalformed(n)).Ok?
  {
    hide ImportEvents, Run, Consistent, RebuildFails, Accepted, FirstWith;
    var l := Run(EMPTY, [Stronger(n)]);
    StrongerTakesEpoch(n);
    RunHasClosedForm([Stronger(n)], PriorityOf);
    AcceptedIff(l, WithMalformed(n));
    forall id ensures !Spoils(l, WithMalformed(n), id) {
      if FirstWith(WithMalformed(n), id).Some? {
        HolderFacts(WithMalformed(n), id);
        assert RankLess(RankOf(WithMalformed(n)), l.registry[1]);
      }
    }
  }

  lemma MalformedThenStronger(n: Names)
    requires n.invitation != ""
    ensures Run(EMPTY, [WithMalformed(n), Stronger(n)]) == Run(EMPTY, [Stronger(n)])
  {
    hide ImportEvents, WithMalformed, Stronger;
    MalformedFirstIsTurnedDown(n);
    var a := [WithMalformed(n), Stronger(n)];
    assert a[..1] == [WithMalformed(n)] && [WithMalformed(n)][..0] == [] && [Stronger(n)][..0] == [];
    assert Run(EMPTY, [WithMalformed(n)]) == EMPTY;
  }

  lemma StrongerThenMalformed(n: Names)
    ensures WithMalformed(n) in Accepted([Stronger(n), WithMalformed(n)])
  {
    hide ImportEvents, Run, WithMalformed, Stronger;
    MalformedLaterIsAccepted(n);
    StrongerTakesEpoch(n);
    assert [Stronger(n), WithMalformed(n)][..1] == [Stronger(n)];
  }

  /** Without sanity the order shows: an import with a malformed liability is turned down as a whole when it comes
      first, and accepted for its other epochs when a stronger source already holds the epoch of that liability. */
  lemma MalformedImportDiverges(n: Names)
    requires n.invitation != ""
    ensures Steady([WithMalformed(n), Stronger(n)], PriorityOf)
    ensures SameImports([WithMalformed(n), Stronger(n)], [Stronger(n), WithMalformed(n)])
    ensures 2 !in Run(EMPTY, [WithMalformed(n), Stronger(n)]).registry
    ensures 2 in Run(EMPTY, [Stronger(n), WithMalformed(n)]).registry
  {
    hide ImportEvents, Run, Accepted, RowsForm, Consistent, RebuildFails, Reward, RankLess;
    MalformedThenStronger(n);
    StrongerThenMalformed(n);
    StrongerTakesEpoch(n);
    var b := [Stronger(n), WithMalformed(n)];
    RunHasClosedForm(b, PriorityOf);
    assert WithMalformed(n).events[1].epoch == 2 by { RewardEpoch(n, 2, Proposer, Absent); }
    assert Touches(WithMalformed(n), 2);
    assert TouchedBy(Accepted(b), 2);
  }

  lemma RewardEpoch(n: Names, epoch: nat, kind: ReplayKind, eventEpoch: Field)
    ensures Reward(n, epoch, kind, eventEpoch).epoch == epoch
  {
  }

  function Rewarding(n: Names): Import {
    Import("a", 1, [Reward(n, 1, Proposer, Absent)], false)
  }

  /** The one id of the import, which the counterparty is no part of. */
  function RewardId(n: Names): (id: EventId)
    ensures id.ExactId? && id.epoch == 1
  {
    IdOf("a", Reward(n, 1, Proposer, Absent))
  }

  lemma RewardRow(n: Names)
    ensures FirstWith(Rewarding(n), RewardId(n)) == Some(ToRow("a", Reward(n, 1, Proposer, Absent)))
    ensures Sane(Rewarding(n))
  {
    hide Sane;
    ProposersAreSane(Rewarding(n));
    assert IdOf("a", Rewarding(n).events[0]) == RewardId(n);
  }

  lemma FirstRowStays(n: Names, m: Names)
    requires RewardId(n) == RewardId(m)
    ensures var run := Run(EMPTY, [Rewarding(n), Rewarding(m)]);
            RewardId(n) in run.rows && run.rows[RewardId(n)].extras.counterparty == n.counterparty
  {
    hide Run, Sane, FirstWith, FirstOf, RegistryForm, Consistent, Accepted, IdOf, ToRow, RankLess, Touches, RebuildFails;
    var a, id := [Rewarding(n), Rewarding(m)], RewardId(n);
    RewardRow(n);
    RewardRow(m);
    assert forall imp | imp in a :: imp == Rewarding(n) || imp == Rewarding(m);
    SaneIsAccepted(a, PriorityOf);
    RunHasClosedForm(a, PriorityOf);
    assert a == [Rewarding(n)] + [Rewarding(m)];
    FirstOfCons(Rewarding(n), [Rewarding(m)], id);
    RankTotal(RankOf(Rewarding(n)), RankOf(Rewarding(n)));
    assert Rewarding(n) in a && Leads(a, Rewarding(n), id);
    HeldIff(Run(EMPTY, a), a, PriorityOf, id);
    RowKeepsExtras(Reward(n, 1, Proposer, Absent));
  }

  lemma RowKeepsExtras(e: RawEvent)
    ensures ToRow("a", e).extras == e.extras
  {
  }

  /** The order shows in a column no id covers: two sane imports of one event that differ in the counterparty, if at
      all. The ledger has the one that came first. */
  lemma CounterpartyDependsOnOrder(n: Names, counterparty: string)
    ensures var m := n.(counterparty := counterparty);
            var x, y, id := Rewarding(n), Rewarding(m), RewardId(n);
            && Steady([x, y], PriorityOf) && Sane(x) && Sane(y) && SameImports([x, y], [y, x])
            && id in Run(EMPTY, [x, y]).rows && id in Run(EMPTY, [y, x]).rows
            && Run(EMPTY, [x, y]).rows[id].extras.counterparty == n.counterparty
            && Run(EMPTY, [y, x]).rows[id].extras.counterparty == counterparty
  {
    hide Run, Sane, FirstWith;
    var m := n.(counterparty := counterparty);
    RewardRow(n);
    RewardRow(m);
    FirstRowStays(n, m);
    FirstRowStays(m, n);
  }
}
