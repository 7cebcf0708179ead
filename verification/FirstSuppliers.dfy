/**
 When the whole ledger ignores the order of imports, exactly, for all imports without
 replacement, sane or not (`WholeLedgerIgnoresOrderIff`).

 The ledger has, for each id, the row of the import that supplied it first. An import
 that is not sane may be turned down now and accepted later, so which imports can be
 first is decided by the largest ledger that the imports without the id can build: what
 one ledger accepts, every ledger of more imports accepts (`MoreAcceptMore`), so that
 ledger, `Largest`, accepts whatever any run without the id accepts (`CanSupplyIff`).
 The liabilities follow the ledger (`LiabilitiesConverge`).
 */
module FirstSuppliers {
  import opened ByteStrings
  import opened RewardRows
  import opened Liabilities
  import opened RewardImports
  import opened ImportConvergence
  import opened ImportOrder
  import opened Listings
  import RewardTables

  // -------------------------------------------------------- more imports accept more

  /** A ledger of more imports accepts what a ledger of fewer accepts. */
  lemma MoreAcceptMore(l: Ledger, a: seq<Import>, m: Ledger, b: seq<Import>, priorities: string -> int, imp: Import)
    requires ClosedForm(l, a, priorities) && !RebuildFails(l) && ClosedForm(m, b, priorities) && !RebuildFails(m)
    requires Steady(a, priorities) && Steady(b, priorities) && Steady([imp], priorities)
    requires forall h | h in a :: h in b
    requires ImportEvents(l, imp).Ok?
    ensures ImportEvents(m, imp).Ok?
  {
    hide ImportEvents, RebuildFails, ValidLabel, RegistryForm, RowsForm, Consistent, Spoils;
    assert imp in [imp];
    AcceptedIff(l, imp);
    AcceptedIff(m, imp);
    if id :| Spoils(m, imp, id) {
      SpoiledBefore(l, a, m, b, priorities, imp, id);
    }
  }

  lemma SpoiledBefore(l: Ledger, a: seq<Import>, m: Ledger, b: seq<Import>, priorities: string -> int, imp: Import, id: EventId)
    requires ClosedForm(l, a, priorities) && ClosedForm(m, b, priorities)
    requires Steady(a, priorities) && Steady(b, priorities) && imp.priority == priorities(imp.source)
    requires forall h | h in a :: h in b
    requires Spoils(m, imp, id)
    ensures Spoils(l, imp, id)
  {
    hide Parse, FirstWith, RankLess, Consistent, Touches, FirstOf;
    HolderFacts(imp, id);
    var epoch := id.epoch;
    if epoch in l.registry {
      var h :| h in a && Touches(h, epoch) && h.source == l.registry[epoch].source;
      assert RankOf(h) == l.registry[epoch] && h in b && TouchedBy(b, epoch);
      RanksChain(RankOf(imp), m.registry[epoch], RankOf(h));
    }
    if id in l.rows {
      StillThere(l, a, m, b, priorities, imp, id);
    }
  }

  /** A row stays as long as its source wins its epoch. */
  lemma StillThere(l: Ledger, a: seq<Import>, m: Ledger, b: seq<Import>, priorities: string -> int, imp: Import, id: EventId)
    requires ClosedForm(l, a, priorities) && ClosedForm(m, b, priorities)
    requires Steady(a, priorities) && Steady(b, priorities) && imp.priority == priorities(imp.source)
    requires forall h | h in a :: h in b
    requires id in l.rows && FirstWith(imp, id).Some? && id.ExactId? && Wins(m.registry, imp, id.epoch)
    ensures id in m.rows
  {
    hide FirstWith, RankLess, Consistent, Touches, FirstOf;
    HolderFacts(imp, id);
    FirstOfHolder(a, id);
    FirstOfHolder(b, id);
    var h :| h in a && FirstWith(h, id).Some?;
    HolderFacts(h, id);
    assert RankOf(h) == RankOf(imp) && h in b && TouchedBy(b, id.epoch);
    RankTotal(RankOf(imp), m.registry[id.epoch]);
    assert Canonical(m.registry, id);
  }

  // ------------------------------------------------------------- runs and prefixes

  /** The accepted imports alone give the same ledger, and are all accepted again. */
  lemma {:induction false} AcceptedRun(b: seq<Import>)
    ensures Run(EMPTY, Accepted(b)) == Run(EMPTY, b) && Accepted(Accepted(b)) == Accepted(b)
    decreases |b|
  {
    hide ImportEvents;
    if b != [] {
      var front, last := b[..|b| - 1], b[|b| - 1];
      AcceptedRun(front);
      if ImportEvents(Run(EMPTY, front), last).Ok? {
        assert (Accepted(front) + [last])[..|Accepted(front)|] == Accepted(front);
      }
    }
  }

  lemma {:induction false} AcceptedPrefix(x: seq<Import>, y: seq<Import>)
    ensures Accepted(x) <= Accepted(x + y)
    decreases |y|
  {
    hide ImportEvents;
    if y == [] {
      assert x + y == x;
    } else {
      var front := y[..|y| - 1];
      AcceptedPrefix(x, front);
      assert (x + y)[..|x + y| - 1] == x + front;
    }
  }

  /** A prefix of imports that are all accepted is all accepted. */
  lemma AllAcceptedPrefix(x: seq<Import>, y: seq<Import>)
    requires Accepted(x + y) == x + y
    ensures Accepted(x) == x
    decreases |y|
  {
    hide ImportEvents;
    if y == [] {
      assert x + y == x;
    } else {
      var front := y[..|y| - 1];
      assert (x + y)[..|x + y| - 1] == x + front;
      AcceptedIsShorter(x + front);
      AllAcceptedPrefix(x, front);
    }
  }

  lemma AcceptedSnoc(x: seq<Import>, imp: Import)
    ensures Accepted(x + [imp]) == if ImportEvents(Run(EMPTY, x), imp).Ok? then Accepted(x) + [imp] else Accepted(x)
  {
    hide ImportEvents, Run;
    assert (x + [imp])[..|x|] == x;
  }

  lemma {:induction false} FirstOfPrefix(x: seq<Import>, y: seq<Import>, id: EventId)
    requires FirstOf(x, id).Some?
    ensures FirstOf(x + y, id) == FirstOf(x, id)
    decreases |y|
  {
    hide FirstWith;
    if y == [] {
      assert x + y == x;
    } else {
      var front := y[..|y| - 1];
      FirstOfPrefix(x, front, id);
      assert (x + y)[..|x + y| - 1] == x + front;
    }
  }

  /** The row of an id is that of the first import that holds it. */
  lemma FirstOfFirst(x: seq<Import>, imp: Import, y: seq<Import>, id: EventId)
    requires (forall h | h in x :: FirstWith(h, id).None?) && FirstWith(imp, id).Some?
    ensures FirstOf(x + [imp] + y, id) == FirstWith(imp, id)
  {
    hide FirstWith;
    FirstOfHolder(x, id);
    assert (x + [imp])[..|x|] == x;
    FirstOfPrefix(x + [imp], y, id);
  }

  // ---------------------------------------------------------- the largest ledger

  ghost function Without(a: seq<Import>, id: EventId): (r: seq<Import>)
    ensures forall imp :: imp in r <==> imp in a && FirstWith(imp, id).None?
  {
    if a == [] then []
    else
      var front := Without(a[..|a| - 1], id);
      assert forall imp :: imp in a <==> imp in a[..|a| - 1] || imp == a[|a| - 1];
      if FirstWith(a[|a| - 1], id).None? then front + [a[|a| - 1]] else front
  }

  ghost function Missing(w: seq<Import>, s: seq<Import>): set<Import> {
    set imp | imp in w && imp !in s
  }

  /** The imports of `w` are imported, each when it is accepted, until the ledger accepts no other. */
  ghost function Saturated(w: seq<Import>, s: seq<Import>): (r: seq<Import>)
    requires Accepted(s) == s
    ensures Accepted(r) == r && forall imp | imp in r :: imp in s || imp in w
    ensures forall imp | imp in w && imp !in r :: ImportEvents(Run(EMPTY, r), imp).Err?
    decreases Missing(w, s)
  {
    if exists imp :: imp in w && imp !in s && ImportEvents(Run(EMPTY, s), imp).Ok? then
      var imp :| imp in w && imp !in s && ImportEvents(Run(EMPTY, s), imp).Ok?;
      AcceptedSnoc(s, imp);
      assert imp in Missing(w, s) && imp !in Missing(w, s + [imp]);
      Saturated(w, s + [imp])
    else s
  }

  /** A largest run of the imports that do not hold the id. */
  ghost function Largest(a: seq<Import>, id: EventId): (r: seq<Import>)
    ensures Accepted(r) == r && forall imp | imp in r :: imp in a && FirstWith(imp, id).None?
    ensures forall imp | imp in a && FirstWith(imp, id).None? && imp !in r :: ImportEvents(Run(EMPTY, r), imp).Err?
  {
    Saturated(Without(a, id), [])
  }

  /** The import holds the id, and the largest ledger without the id accepts it. */
  ghost predicate CanSupply(a: seq<Import>, imp: Import, id: EventId) {
    imp in a && FirstWith(imp, id).Some? && ImportEvents(Run(EMPTY, Largest(a, id)), imp).Ok?
  }

  lemma AcceptedByLargest(a: seq<Import>, b: seq<Import>, priorities: string -> int, id: EventId, imp: Import)
    requires Steady(a, priorities) && imp in a
    requires (forall h | h in b :: h in a && h in Largest(a, id)) && Accepted(b) == b
    requires ImportEvents(Run(EMPTY, b), imp).Ok?
    ensures ImportEvents(Run(EMPTY, Largest(a, id)), imp).Ok?
  {
    hide ImportEvents, Run, RebuildFails, ClosedForm, Accepted, Largest, FirstWith;
    var r := Largest(a, id);
    SteadyPart(a, b, priorities);
    SteadyPart(a, r, priorities);
    RunHasClosedForm(b, priorities);
    RunHasClosedForm(r, priorities);
    MoreAcceptMore(Run(EMPTY, b), b, Run(EMPTY, r), r, priorities, imp);
  }

  /** Whatever a run without the id accepts, the largest one accepts. */
  lemma {:induction false} LargestHasAll(a: seq<Import>, b: seq<Import>, priorities: string -> int, id: EventId)
    requires Steady(a, priorities) && Accepted(b) == b
    requires forall imp | imp in b :: imp in a && FirstWith(imp, id).None?
    ensures forall imp | imp in b :: imp in Largest(a, id)
    decreases |b|
  {
    hide ImportEvents, Run, FirstWith, Largest, Accepted;
    if b != [] {
      var front, last := b[..|b| - 1], b[|b| - 1];
      assert b == front + [last];
      AllAcceptedPrefix(front, [last]);
      AcceptedSnoc(front, last);
      LargestHasAll(a, front, priorities, id);
      assert last in b;
      AcceptedByLargest(a, front, priorities, id, last);
    }
  }

  /** An import can supply the id exactly when some run of imports without the id leads to a ledger that accepts it. */
  lemma CanSupplyIff(a: seq<Import>, priorities: string -> int, imp: Import, id: EventId)
    requires Steady(a, priorities) && imp in a && FirstWith(imp, id).Some?
    ensures CanSupply(a, imp, id)
       <==> exists b :: (forall h | h in b :: h in a && FirstWith(h, id).None?) && ImportEvents(Run(EMPTY, b), imp).Ok?
  {
    hide ImportEvents, Run, FirstWith, Largest, Accepted;
    if b :| (forall h | h in b :: h in a && FirstWith(h, id).None?) && ImportEvents(Run(EMPTY, b), imp).Ok? {
      AcceptedRun(b);
      AcceptedAreThere(b);
      LargestHasAll(a, Accepted(b), priorities, id);
      AcceptedByLargest(a, Accepted(b), priorities, id, imp);
    }
  }

  // -------------------------------------------------------------- first suppliers

  /** The first import that holds the id, in a run that has one. */
  lemma {:induction false} FirstHolder(b: seq<Import>, id: EventId) returns (k: nat)
    requires FirstOf(b, id).Some?
    ensures k < |b| && FirstWith(b[k], id).Some? && forall h | h in b[..k] :: FirstWith(h, id).None?
    decreases |b|
  {
    hide FirstWith;
    var front := b[..|b| - 1];
    if FirstOf(front, id).Some? {
      k := FirstHolder(front, id);
      assert b[..k] == front[..k];
    } else {
      k := |b| - 1;
      FirstOfHolder(front, id);
    }
  }

  /** The row a run has for an id is that of an import which can supply it. */
  lemma RowHasSupplier(a: seq<Import>, b: seq<Import>, priorities: string -> int, id: EventId) returns (imp: Import)
    requires Steady(a, priorities) && SameImports(a, b) && FirstOf(Accepted(b), id).Some?
    ensures CanSupply(a, imp, id) && FirstOf(Accepted(b), id) == FirstWith(imp, id)
  {
    hide ImportEvents, Run, FirstWith, Largest, Accepted, FirstOf;
    var all := Accepted(b);
    var k := FirstHolder(all, id);
    imp := all[k];
    assert all == all[..k] + [imp] + all[k + 1..] && all == all[..k] + ([imp] + all[k + 1..]);
    FirstOfFirst(all[..k], imp, all[k + 1..], id);
    AcceptedRun(b);
    AllAcceptedPrefix(all[..k] + [imp], all[k + 1..]);
    AllAcceptedPrefix(all[..k], [imp]);
    AcceptedSnoc(all[..k], imp);
    SteadyPart(a, b, priorities);
    AcceptedAreSteady(b, priorities);
    assert forall h | h in all :: h in a by { AcceptedAreThere(b); }
    LargestHasAll(a, all[..k], priorities, id);
    AcceptedByLargest(a, all[..k], priorities, id, imp);
  }

  lemma {:induction false} AcceptedAreThere(b: seq<Import>)
    ensures forall imp | imp in Accepted(b) :: imp in b
    decreases |b|
  {
    hide ImportEvents, Run;
    if b != [] {
      AcceptedAreThere(b[..|b| - 1]);
    }
  }

  /** An import that can supply an id does so in some run over the same imports. */
  lemma SupplierIsFirst(a: seq<Import>, imp: Import, id: EventId)
    requires CanSupply(a, imp, id)
    ensures SameImports(a, Largest(a, id) + [imp] + a)
    ensures FirstOf(Accepted(Largest(a, id) + [imp] + a), id) == FirstWith(imp, id)
  {
    hide ImportEvents, Run, FirstWith, Largest, Accepted, FirstOf;
    var r := Largest(a, id);
    AcceptedSnoc(r, imp);
    AcceptedPrefix(r + [imp], a);
    var all := Accepted(r + [imp] + a);
    assert all == r + [imp] + all[|r| + 1..];
    FirstOfFirst(r, imp, all[|r| + 1..], id);
  }

  // ----------------------------------------------------------------- the theorem

  /** The id is one of the ledger of the sane imports: a sane import of a leading source holds it. */
  ghost predicate LedgerHas(a: seq<Import>, id: EventId) {
    exists p :: p in SaneOf(a) && FirstWith(p, id).Some? && Leads(SaneOf(a), p, id)
  }

  /** All imports that can supply an id of the ledger give it the same row. */
  ghost predicate OneSuppliedRow(a: seq<Import>) {
    forall p, q, id | LedgerHas(a, id) && CanSupply(a, p, id) && CanSupply(a, q, id) :: FirstWith(p, id) == FirstWith(q, id)
  }

  ghost predicate AllHarmless(a: seq<Import>) {
    forall imp | imp in a && !Sane(imp) :: Harmless(Run(EMPTY, SaneOf(a)), imp)
  }

  /** When all others are harmless, every run has the ids of the sane imports, each with the row supplied first. */
  lemma HarmlessRows(a: seq<Import>, b: seq<Import>, priorities: string -> int, id: EventId)
    requires Steady(a, priorities) && SameImports(a, b) && AllHarmless(a)
    ensures id in Run(EMPTY, b).rows <==> LedgerHas(a, id)
    ensures id in Run(EMPTY, b).rows ==>
              FirstOf(Accepted(b), id).Some? && Run(EMPTY, b).rows[id] == FirstOf(Accepted(b), id).value
  {
    hide Run, Sane, FirstWith, FirstOf, RegistryForm, Canonical, Consistent, Accepted, Leads, Harmless, RebuildFails;
    var g := SaneOf(a);
    HarmlessMeansSame(a, b, priorities);
    SteadyPart(a, g, priorities);
    SteadyPart(a, b, priorities);
    RunHasClosedForm(g, priorities);
    SaneIsAccepted(g, priorities);
    RunHasClosedForm(b, priorities);
    HeldIff(Run(EMPTY, g), g, priorities, id);
    assert id in Run(EMPTY, b).rows.Keys <==> id in Run(EMPTY, g).rows.Keys;
  }

  lemma SuppliedAlike(a: seq<Import>, b: seq<Import>, c: seq<Import>, priorities: string -> int)
    requires Steady(a, priorities) && SameImports(a, b) && SameImports(a, c) && AllHarmless(a) && OneSuppliedRow(a)
    ensures Run(EMPTY, b) == Run(EMPTY, c)
  {
    hide Run, Steady, SameImports, AllHarmless, LedgerHas, CanSupply, FirstWith, FirstOf, Accepted;
    IdsAlike(a, b, c, priorities);
    forall id | id in Run(EMPTY, b).rows ensures id in Run(EMPTY, c).rows && Run(EMPTY, b).rows[id] == Run(EMPTY, c).rows[id] {
      HarmlessRows(a, b, priorities, id);
      HarmlessRows(a, c, priorities, id);
      var p := RowHasSupplier(a, b, priorities, id);
      var q := RowHasSupplier(a, c, priorities, id);
    }
    assert Run(EMPTY, b).rows == Run(EMPTY, c).rows;
  }

  lemma IdsAlike(a: seq<Import>, b: seq<Import>, c: seq<Import>, priorities: string -> int)
    requires Steady(a, priorities) && SameImports(a, b) && SameImports(a, c) && AllHarmless(a)
    ensures SameIds(Run(EMPTY, b), Run(EMPTY, c))
  {
    hide Run, Sane, Harmless;
    HarmlessMeansSame(a, b, priorities);
    HarmlessMeansSame(a, c, priorities);
  }

  lemma AlikeMeansOneRow(a: seq<Import>, priorities: string -> int, p: Import, q: Import, id: EventId)
    requires Steady(a, priorities) && AllHarmless(a)
    requires forall b, c | SameImports(a, b) && SameImports(a, c) :: Run(EMPTY, b) == Run(EMPTY, c)
    requires LedgerHas(a, id) && CanSupply(a, p, id) && CanSupply(a, q, id)
    ensures FirstWith(p, id) == FirstWith(q, id)
  {
    hide Run, Steady, SameImports, AllHarmless, LedgerHas, FirstWith, FirstOf, Accepted, Largest, ImportEvents;
    var b, c := Largest(a, id) + [p] + a, Largest(a, id) + [q] + a;
    SupplierIsFirst(a, p, id);
    SupplierIsFirst(a, q, id);
    HarmlessRows(a, b, priorities, id);
    HarmlessRows(a, c, priorities, id);
    assert Run(EMPTY, b) == Run(EMPTY, c);
  }

  /** Exactly when the whole ledger ignores the order and repetition of imports without replacement: every import that
      is not sane is turned down by the ledger of the sane ones or adds nothing to it, and all imports that can supply
      an id first give it the same row. */
  lemma WholeLedgerIgnoresOrderIff(a: seq<Import>, priorities: string -> int)
    requires Steady(a, priorities)
    ensures (forall b, c | SameImports(a, b) && SameImports(a, c) :: Run(EMPTY, b) == Run(EMPTY, c))
       <==> (forall imp | imp in a && !Sane(imp) :: Harmless(Run(EMPTY, SaneOf(a)), imp)) && OneSuppliedRow(a)
  {
    hide Run, Steady, SameImports, Sane, Harmless, LedgerHas, CanSupply, FirstWith;
    if AllHarmless(a) && OneSuppliedRow(a) {
      forall b, c | SameImports(a, b) && SameImports(a, c) ensures Run(EMPTY, b) == Run(EMPTY, c) {
        SuppliedAlike(a, b, c, priorities);
      }
    }
    if forall b, c | SameImports(a, b) && SameImports(a, c) :: Run(EMPTY, b) == Run(EMPTY, c) {
      assert forall b, c | SameImports(a, b) && SameImports(a, c) :: SameIds(Run(EMPTY, b), Run(EMPTY, c));
      IdsIgnoreOrderIff(a, priorities);
      forall p, q, id | LedgerHas(a, id) && CanSupply(a, p, id) && CanSupply(a, q, id)
        ensures FirstWith(p, id) == FirstWith(q, id)
      {
        AlikeMeansOneRow(a, priorities, p, q, id);
      }
    }
  }

  /** For sane imports the condition on the rows is the one over the leading sources. */
  lemma SaneSupply(a: seq<Import>, priorities: string -> int)
    requires Steady(a, priorities) && forall imp | imp in a :: Sane(imp)
    ensures AllHarmless(a) && (OneSuppliedRow(a) <==> OneRowPerId(a))
  {
    hide Run, Sane, OneSuppliedRow, OneRowPerId, Harmless;
    LedgerIgnoresOrder(a, priorities);
    WholeLedgerIgnoresOrderIff(a, priorities);
    assert SameImports(a, a);
    if OneRowPerId(a) {
      forall b, c | SameImports(a, b) && SameImports(a, c) ensures Run(EMPTY, b) == Run(EMPTY, c) {
        assert Run(EMPTY, b) == Run(EMPTY, a) && Run(EMPTY, c) == Run(EMPTY, a);
      }
    }
    if OneSuppliedRow(a) {
      forall b | SameImports(a, b) ensures Run(EMPTY, b) == Run(EMPTY, a) {
      }
    }
  }

  /** Where the whole ledger ignores the order, so do the liabilities rebuilt from it. */
  lemma LiabilitiesConverge(
      a: seq<Import>, b: seq<Import>, priorities: string -> int, idOrder: Order<EventId>, t: map<Key, Stored>, u: map<Key, Stored>)
    requires Steady(a, priorities) && SameImports(a, b) && AllHarmless(a) && OneSuppliedRow(a)
    requires IsOrder(idOrder)
    requires RewardTables.Settled(idOrder, Run(EMPTY, a), t) && RewardTables.Settled(idOrder, Run(EMPTY, b), u)
    ensures t == u
  {
    hide Run, AllHarmless, OneSuppliedRow, IsOrder, RewardTables.RebuiltFrom;
    SuppliedAlike(a, a, b, priorities);
    RewardTables.RebuiltIsUnique(idOrder, Run(EMPTY, a), map[], t, u);
  }
}
