/**
 What one import does, spelled on the tables and the events alone: which epochs it takes
 over, which rows stay and which are inserted (`ImportedRow`), when it is turned down
 (`RejectedIff`), whom reconciliation chooses (`ReconciledSource`), and which source an
 epoch has after any run of imports without replacement (`HighestRankHolds`).

 Ranks are compared by priority, and equal priorities by the label as a string: a proper
 prefix, or a smaller character where two labels first differ.
 */
module ImportSteps {
  import opened ByteStrings
  import opened RewardRows
  import opened Liabilities
  import opened LiabilityColumns
  import opened RewardImports
  import opened ImportConvergence

  // ------------------------------------------------------------------------- ranks

  /** The strings agree up to a place where the first one ends or has the smaller character. */
  ghost predicate Before(s: string, t: string) {
    exists k: nat :: k <= |s| && k < |t| && s[..k] == t[..k] && (k == |s| || s[k] < t[k])
  }

  lemma {:induction false} BeforeIff(s: string, t: string)
    ensures LexLess(Codes(s), Codes(t)) <==> Before(s, t)
    decreases |s|
  {
    if t == "" {
      assert Codes(t) == [];
    } else if s == "" {
      assert Codes(s) == [] && Codes(t) != [];
      assert s[..0] == t[..0];
      assert Before(s, t);
    } else {
      BeforeIff(s[1..], t[1..]);
      assert Codes(s)[1..] == Codes(s[1..]) && Codes(t)[1..] == Codes(t[1..]);
      assert Codes(s)[0] == s[0] as int && Codes(t)[0] == t[0] as int;
      BeforeStep(s, t);
    }
  }

  lemma BeforeStep(s: string, t: string)
    requires s != "" && t != ""
    ensures Before(s, t) <==> s[0] < t[0] || (s[0] == t[0] && Before(s[1..], t[1..]))
  {
    if k: nat :| k <= |s| && k < |t| && s[..k] == t[..k] && (k == |s| || s[k] < t[k]) {
      if k > 0 {
        assert s[..k][0] == t[..k][0];
        assert s[1..][..k - 1] == s[..k][1..] && t[1..][..k - 1] == t[..k][1..];
      }
    }
    if s[0] < t[0] {
      assert s[..0] == t[..0];
    }
    if s[0] == t[0] && Before(s[1..], t[1..]) {
      var k: nat :| k <= |s| - 1 && k < |t| - 1 && s[1..][..k] == t[1..][..k] && (k == |s| - 1 || s[1..][k] < t[1..][k]);
      assert s[..k + 1] == [s[0]] + s[1..][..k] && t[..k + 1] == [t[0]] + t[1..][..k];
    }
  }

  /** The first rank does not exceed the second. */
  ghost predicate AtMost(a: Registration, b: Registration) {
    a.priority < b.priority || (a.priority == b.priority && (a.source == b.source || Before(a.source, b.source)))
  }

  lemma AtMostIff(a: Registration, b: Registration)
    ensures AtMost(a, b) <==> !RankLess(b, a)
  {
    hide Before, LexLess, Codes;
    BeforeIff(a.source, b.source);
    BeforeIff(b.source, a.source);
    LexTrichotomy(Codes(a.source), Codes(b.source));
    if Codes(a.source) == Codes(b.source) {
      CodesInjective(a.source, b.source);
    }
  }

  // -------------------------------------------------------------------- one import

  /** The import has events of the epoch, and no registered rank above its own stands in the way. */
  ghost predicate TakesOver(registry: Registry, imp: Import, epoch: nat) {
    && (exists e :: e in imp.events && e.epoch == epoch)
    && (epoch in registry ==> AtMost(registry[epoch], Registration(imp.source, imp.priority)))
  }

  lemma TakesOverIff(registry: Registry, imp: Import, epoch: nat)
    ensures TakesOver(registry, imp, epoch) <==> Wins(registry, imp, epoch)
  {
    hide RankLess, AtMost;
    if epoch in registry {
      AtMostIff(registry[epoch], RankOf(imp));
    }
    if i :| 0 <= i < |imp.events| && imp.events[i].epoch == epoch {
      assert imp.events[i] in imp.events;
    }
  }

  /** The row is there and outlives the import: not deleted by a replacement, nor for a stronger source. */
  ghost predicate Stays(l: Ledger, imp: Import, id: EventId) {
    && id in l.rows
    && !(l.rows[id].exact && imp.replace && l.rows[id].source == imp.source)
    && !(l.rows[id].exact && l.rows[id].source != imp.source && TakesOver(l.registry, imp, l.rows[id].epoch))
  }

  /** The event is the first of the import with this id, and of an epoch the import takes over. */
  ghost predicate Brings(l: Ledger, imp: Import, id: EventId, i: nat) {
    && i < |imp.events| && IdOf(imp.source, imp.events[i]) == id && TakesOver(l.registry, imp, imp.events[i].epoch)
    && forall j | 0 <= j < i :: IdOf(imp.source, imp.events[j]) != id
  }

  lemma {:induction false} FirstInIsFirst(source: string, events: seq<RawEvent>, id: EventId) returns (i: nat)
    requires FirstIn(source, events, id).Some?
    ensures i < |events| && IdOf(source, events[i]) == id && FirstIn(source, events, id) == Some(ToRow(source, events[i]))
    ensures forall j | 0 <= j < i :: IdOf(source, events[j]) != id
  {
    hide IdOf, ToRow;
    if IdOf(source, events[0]) == id {
      i := 0;
    } else {
      var k := FirstInIsFirst(source, events[1..], id);
      i := k + 1;
      forall j | 0 <= j < i ensures IdOf(source, events[j]) != id {
        if j > 0 {
          assert events[j] == events[1..][j - 1];
        }
      }
    }
  }

  lemma StaysIff(l: Ledger, imp: Import, id: EventId)
    ensures Stays(l, imp, id) <==> id in Kept(l.(rows := Deleted(l.rows, imp)), imp)
  {
    hide TakesOver, Wins;
    if id in l.rows {
      TakesOverIff(l.registry, imp, l.rows[id].epoch);
    }
  }

  lemma InsertedIff(l: Ledger, imp: Import, id: EventId)
    ensures id in Inserted(l.registry, imp) <==> exists i: nat :: Brings(l, imp, id, i)
  {
    hide IdOf, TakesOver, Wins, FirstIn;
    if id in Inserted(l.registry, imp) {
      var k :| 0 <= k < |imp.events| && Wins(l.registry, imp, imp.events[k].epoch) && IdOf(imp.source, imp.events[k]) == id;
      assert FirstIn(imp.source, imp.events, id).Some?;
      var i := FirstInIsFirst(imp.source, imp.events, id);
      SameEpoch(imp.source, imp.events[i], imp.events[k]);
      TakesOverIff(l.registry, imp, imp.events[i].epoch);
      assert Brings(l, imp, id, i);
    }
    if i: nat :| Brings(l, imp, id, i) {
      TakesOverIff(l.registry, imp, imp.events[i].epoch);
    }
  }

  /** The rows after any import: those that stay, unchanged, and for each other id the first event that brings it. */
  lemma ImportedRow(l: Ledger, imp: Import, id: EventId)
    ensures id in Imported(l, imp).rows <==> Stays(l, imp, id) || exists i: nat :: Brings(l, imp, id, i)
    ensures Stays(l, imp, id) ==> Imported(l, imp).rows[id] == l.rows[id]
    ensures forall i: nat | Brings(l, imp, id, i) && !Stays(l, imp, id) ::
              Imported(l, imp).rows[id] == ToRow(imp.source, imp.events[i])
  {
    hide IdOf, ToRow, TakesOver, Stays, FirstIn, Kept, Inserted, Deleted, Imported, Merged;
    StaysIff(l, imp, id);
    InsertedIff(l, imp, id);
    StaysRow(l, imp, id);
    ImportedIsMerged(l, imp, id);
    forall i: nat | Brings(l, imp, id, i) && !Stays(l, imp, id)
      ensures Imported(l, imp).rows[id] == ToRow(imp.source, imp.events[i])
    {
      var k := FirstInIsFirst(imp.source, imp.events, id);
      assert k == i;
    }
  }

  lemma ImportedIsMerged(l: Ledger, imp: Import, id: EventId)
    ensures var start := l.(rows := Deleted(l.rows, imp));
            && (id in Imported(l, imp).rows <==> id in Kept(start, imp) || id in Inserted(l.registry, imp))
            && (id in Kept(start, imp) ==> Imported(l, imp).rows[id] == Kept(start, imp)[id])
            && (id in Inserted(l.registry, imp) ==> FirstIn(imp.source, imp.events, id).Some?)
            && (id in Imported(l, imp).rows && id !in Kept(start, imp) ==>
                  Some(Imported(l, imp).rows[id]) == FirstIn(imp.source, imp.events, id))
  {
    hide IdOf, ToRow, Kept, Deleted, BestAt, ExactEpochs, LocalRegistry, FullRegistry, Affected, Wins;
  }

  lemma StaysRow(l: Ledger, imp: Import, id: EventId)
    requires Stays(l, imp, id) ==> id in Kept(l.(rows := Deleted(l.rows, imp)), imp)
    ensures Stays(l, imp, id) ==> Kept(l.(rows := Deleted(l.rows, imp)), imp)[id] == l.rows[id]
  {
    hide TakesOver, Wins;
  }

  /** An import is turned down exactly for a bad label or priority, for replacing by nothing, or when a row of an
      invitee that its epoch's source would then have has a liability that cannot be read. */
  lemma RejectedIff(l: Ledger, imp: Import)
    ensures ImportEvents(l, imp).Err?
       <==> || imp.source == "" || |imp.source| > 128 || (exists c :: c in imp.source && c < ' ')
            || imp.priority < 1 || (imp.replace && |imp.events| == 0)
            || exists id :: id in Imported(l, imp).rows && Unreadable(Imported(l, imp).rows[id])
                            && Imported(l, imp).rows[id].exact && Imported(l, imp).rows[id].kind == Invitee
                            && Registered(Imported(l, imp).registry, Imported(l, imp).rows[id].source, Imported(l, imp).rows[id].epoch)
  {
    hide Imported, Parse;
    var next := Imported(l, imp);
    LabelIff(imp.source);
    forall id | id in next.rows ensures Parse(next.rows[id]).Malformed? <==> Unreadable(next.rows[id]) {
      MalformedIff(next.rows[id]);
    }
  }

  lemma LabelIff(source: string)
    ensures ValidLabel(source) <==> source != "" && |source| <= 128 && !exists c :: c in source && c < ' '
  {
    if c :| c in source && c < ' ' {
      var i :| 0 <= i < |source| && source[i] == c;
      assert source[i] as int < 32;
    }
    if i :| 0 <= i < |source| && source[i] as int < 32 {
      assert source[i] in source && source[i] < ' ';
    }
  }

  // ---------------------------------------------------------------- reconciliation

  /** The label is this name, or this name with something after a colon. */
  predicate Labelled(source: string, name: string) {
    source == name || (|source| > |name| && source[..|name|] == name && source[|name|] == ':')
  }

  lemma LabelledIff(source: string, name: string)
    ensures Labelled(source, name) <==> source == name || name + ":" <= source
  {
    if Labelled(source, name) && source != name {
      assert source[..|name| + 1] == name + ":";
    }
    if name + ":" <= source {
      assert (name + ":")[..|name|] == name && (name + ":")[|name|] == ':';
      assert source[..|name|] == source[..|name| + 1][..|name|];
    }
  }

  /** The priority a source has where none is given: the one it is registered with, or one by its name. */
  ghost predicate HasPriority(r: Registration, previous: Option<Registration>) {
    if previous.Some? && previous.value.source == r.source then r.priority == previous.value.priority
    else if Labelled(r.source, "idena_stats_collector") then r.priority == 300
    else if Labelled(r.source, "idena_public_api") then r.priority == 200
    else r.priority == 100
  }

  lemma RankHasPriority(source: string, previous: Option<Registration>)
    ensures HasPriority(RankIn(source, previous), previous) && RankIn(source, previous).source == source
  {
    hide Labelled;
    LabelledIff(source, "idena_stats_collector");
    LabelledIff(source, "idena_public_api");
  }

  lemma PriorityIsUnique(a: Registration, b: Registration, previous: Option<Registration>)
    requires a.source == b.source && HasPriority(a, previous) && HasPriority(b, previous)
    ensures a == b
  {
  }

  /** Some exact row of the epoch is of this source. */
  ghost predicate Offers(rows: Rows, source: string, epoch: nat) {
    exists id :: id in rows && rows[id].exact && rows[id].epoch == epoch && rows[id].source == source
  }

  /** The source of an epoch is one that has exact rows there, and no other one ranks above it. */
  ghost predicate Chosen(l: Ledger, epoch: nat, r: Registration) {
    && Offers(l.rows, r.source, epoch) && HasPriority(r, Previous(l.registry, epoch))
    && forall other: Registration | Offers(l.rows, other.source, epoch) && HasPriority(other, Previous(l.registry, epoch)) ::
         AtMost(other, r)
  }

  lemma OffersIff(rows: Rows, source: string, epoch: nat)
    ensures Offers(rows, source, epoch) <==> source in Candidates(rows, epoch)
  {
  }

  lemma BestIsChosen(l: Ledger, epoch: nat)
    requires epoch in ExactEpochs(l.rows)
    ensures Chosen(l, epoch, BestAt(l, epoch))
  {
    hide RankLess, AtMost, Offers, Candidates, HasPriority, RankIn, ExactEpochs;
    CandidatesIffExact(l.rows, epoch);
    var best, previous := BestAt(l, epoch), Previous(l.registry, epoch);
    OffersIff(l.rows, best.source, epoch);
    RankHasPriority(best.source, previous);
    forall other: Registration | Offers(l.rows, other.source, epoch) && HasPriority(other, previous)
      ensures AtMost(other, best)
    {
      OffersIff(l.rows, other.source, epoch);
      RankHasPriority(other.source, previous);
      PriorityIsUnique(other, RankIn(other.source, previous), previous);
      AtMostIff(other, best);
    }
  }

  /** Reconciliation registers, in each epoch it looks at, the highest source that has exact rows there, and no source
      where there are none; in the other epochs it changes nothing. It looks at all epochs when given more than 500. */
  lemma ReconciledSource(l: Ledger, epochs: set<nat>, epoch: nat)
    ensures Reconciled(l, epochs).rows == l.rows
    ensures var after := Reconciled(l, epochs).registry;
            if epoch in epochs || |epochs| > 500 then
              && (epoch in after <==> exists source :: Offers(l.rows, source, epoch))
              && (epoch in after ==> Chosen(l, epoch, after[epoch]))
            else Previous(after, epoch) == Previous(l.registry, epoch)
  {
    hide Chosen, Offers, BestAt, ExactEpochs, Candidates;
    CandidatesIffExact(l.rows, epoch);
    if epoch in ExactEpochs(l.rows) {
      BestIsChosen(l, epoch);
    }
    forall source ensures Offers(l.rows, source, epoch) <==> source in Candidates(l.rows, epoch) {
      OffersIff(l.rows, source, epoch);
    }
  }

  // -------------------------------------------------------------------------- runs

  ghost predicate HasEventOf(imp: Import, epoch: nat) {
    exists e :: e in imp.events && e.epoch == epoch
  }

  /** The epoch belongs to the highest of these imports that have an event of it. */
  ghost predicate HighestHolds(registry: Registry, imports: seq<Import>, epoch: nat) {
    && (epoch in registry <==> exists imp :: imp in imports && HasEventOf(imp, epoch))
    && (epoch in registry ==>
          && (exists imp :: imp in imports && HasEventOf(imp, epoch)
                            && registry[epoch] == Registration(imp.source, imp.priority))
          && forall imp | imp in imports && HasEventOf(imp, epoch) ::
               AtMost(Registration(imp.source, imp.priority), registry[epoch]))
  }

  lemma AtMostOrder(a: Registration, b: Registration, c: Registration)
    ensures AtMost(a, a) && (AtMost(a, b) || AtMost(b, a)) && (AtMost(a, b) && AtMost(b, c) ==> AtMost(a, c))
  {
    hide RankLess, AtMost;
    AtMostIff(a, a);
    AtMostIff(a, b);
    AtMostIff(b, a);
    AtMostIff(b, c);
    AtMostIff(a, c);
    RankTotal(a, a);
    RankTotal(a, b);
    RankTotal(b, c);
    if RankLess(c, a) && AtMost(a, b) && AtMost(b, c) {
      if a != b && b != c {
        RankTransitive(a, b, c);
        RankTotal(a, c);
      }
    }
  }

  lemma HighestWon(registry: Registry, after: Registry, imports: seq<Import>, imp: Import, epoch: nat)
    requires HighestHolds(registry, imports, epoch) && HasEventOf(imp, epoch)
    requires epoch in registry ==> AtMost(registry[epoch], RankOf(imp))
    requires Previous(after, epoch) == Some(RankOf(imp))
    ensures HighestHolds(after, imports + [imp], epoch)
  {
    hide AtMost, HasEventOf;
    var all := imports + [imp];
    assert imp in all;
    AtMostOrder(RankOf(imp), RankOf(imp), RankOf(imp));
    forall other | other in all && HasEventOf(other, epoch) ensures AtMost(RankOf(other), RankOf(imp)) {
      if other in imports {
        AtMostOrder(RankOf(other), registry[epoch], RankOf(imp));
      }
    }
  }

  lemma HighestKept(registry: Registry, after: Registry, imports: seq<Import>, imp: Import, epoch: nat)
    requires HighestHolds(registry, imports, epoch) && Previous(after, epoch) == Previous(registry, epoch)
    requires HasEventOf(imp, epoch) ==> epoch in registry && !AtMost(registry[epoch], RankOf(imp))
    ensures HighestHolds(after, imports + [imp], epoch)
  {
    hide AtMost, HasEventOf;
    var all := imports + [imp];
    assert forall x :: x in all <==> x in imports || x == imp;
    if epoch in registry {
      var top :| top in imports && HasEventOf(top, epoch) && registry[epoch] == Registration(top.source, top.priority);
      assert top in all;
      AtMostOrder(registry[epoch], RankOf(imp), RankOf(imp));
    }
  }

  lemma HighestStep(l: Ledger, imports: seq<Import>, imp: Import, epoch: nat)
    requires Consistent(l) && !imp.replace && HighestHolds(l.registry, imports, epoch)
    ensures HighestHolds(Imported(l, imp).registry, imports + [imp], epoch)
  {
    hide Consistent, Imported, Wins, AtMost, HasEventOf, TakesOver, HighestHolds;
    RegistryAfterImport(l, imp, epoch);
    TakesOverIff(l.registry, imp, epoch);
    TakesOverMeans(l.registry, imp, epoch);
    if Wins(l.registry, imp, epoch) {
      HighestWon(l.registry, Imported(l, imp).registry, imports, imp, epoch);
    } else {
      HighestKept(l.registry, Imported(l, imp).registry, imports, imp, epoch);
    }
  }

  lemma TakesOverMeans(registry: Registry, imp: Import, epoch: nat)
    ensures TakesOver(registry, imp, epoch) <==>
              HasEventOf(imp, epoch) && (epoch in registry ==> AtMost(registry[epoch], RankOf(imp)))
  {
    hide AtMost;
  }

  /** After every run of imports without replacement an epoch belongs to the import of the highest priority among the
      accepted ones that have an event of it; among equal priorities, to the greatest label. */
  lemma {:induction false} HighestRankHolds(imports: seq<Import>, epoch: nat)
    requires forall imp | imp in imports :: !imp.replace
    ensures HighestHolds(Run(EMPTY, imports).registry, Accepted(imports), epoch)
    decreases |imports|
  {
    hide HighestHolds, ImportEvents, Consistent;
    if imports == [] {
      assert HighestHolds(EMPTY.registry, [], epoch) by { NothingHolds(epoch); }
    } else {
      var front, last := imports[..|imports| - 1], imports[|imports| - 1];
      HighestRankHolds(front, epoch);
      RunsStayConsistent(front);
      assert last in imports;
      OkIsImported(Run(EMPTY, front), last);
      if ImportEvents(Run(EMPTY, front), last).Ok? {
        HighestStep(Run(EMPTY, front), Accepted(front), last, epoch);
      }
    }
  }

  lemma NothingHolds(epoch: nat)
    ensures HighestHolds(EMPTY.registry, [], epoch)
  {
  }
}
