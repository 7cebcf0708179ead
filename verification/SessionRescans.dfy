/**
 Blocks scanned out of order or again. Sessions then need not stay disjoint
 (`RescanKeepsStaleEnd`); whether they do, and whether every event still names the
 session that contains its block, can be read off the tables and the block beforehand
 (`DisjointIff`, `AttributedIff`), so that whole runs are decided step by step
 (`RunStaysDisjointIff`, `RunStaysOrderlyIff`). The same for the flags of the sessions
 (`FlagsMatchIff`, `RunStaysMatchedIff`).
 */
module SessionRescans {
  import opened ByteStrings
  import opened SessionRecorder

  /** The sessions after a block, and the session its events name. */
  function After(sessions: Sessions, b: Block): (Sessions, Option<nat>) {
    var (entered, start) := Entered(sessions, b);
    Left(entered, start, b)
  }

  predicate Flips(sessions: Sessions, b: Block) {
    var open := OpenSession(sessions);
    FLIP_LOTTERY in b.flags && open.Some? && open.value != b.height
  }

  predicate Finishes(b: Block) {
    VALIDATION_FINISHED in b.flags
  }

  predicate Progresses(b: Block) {
    b.flags * PROGRESS_FLAGS != {}
  }

  /** Some session contains the height. */
  ghost predicate Inside(sessions: Sessions, height: nat) {
    exists s :: s in sessions && Contains(sessions, s, height)
  }

  /** The block does not disturb the intervals. A flip lottery must come after the open session's start, and an end not
      before it; without an open session, a session of one block may start where none is or again where one started,
      and a session that stays open only above all others. */
  ghost predicate Keeps(sessions: Sessions, b: Block) {
    var open := OpenSession(sessions);
    if open.Some? then
      if Flips(sessions, b) then open.value < b.height
      else Finishes(b) ==> open.value <= b.height
    else if Finishes(b) then b.height in sessions || !Inside(sessions, b.height)
    else Progresses(b) ==>
           forall s | s in sessions :: s < b.height && (sessions[s].end.Some? ==> sessions[s].end.value.height < b.height)
  }

  function Max(a: int, b: int): int {
    if a >= b then a else b
  }

  // ------------------------------------------------------------------ case by case

  /** The intervals of the two tables agree everywhere but at these starts. */
  ghost predicate SameBut(before: Sessions, after: Sessions, starts: set<nat>) {
    && (forall s | s in before && s !in starts :: s in after && after[s].end == before[s].end && after[s].status == before[s].status)
    && (forall s | s in after && s !in starts :: s in before)
  }

  /** The open session comes last. */
  lemma OpenIsLast(sessions: Sessions, last: int)
    requires Disjoint(sessions, last) && OpenSession(sessions).Some?
    ensures var o := OpenSession(sessions).value;
            && o in sessions && sessions[o].status == Open && sessions[o].end.None?
            && forall s | s in sessions && s != o ::
                 s < o && sessions[s].status != Open && sessions[s].end.Some? && sessions[s].end.value.height < o
  {
    var o := OpenSession(sessions).value;
    assert o in OpenStarts(sessions);
  }

  lemma NoneIsOpen(sessions: Sessions, last: int)
    requires Disjoint(sessions, last) && OpenSession(sessions).None?
    ensures forall s | s in sessions :: sessions[s].status != Open && sessions[s].end.Some? && s <= sessions[s].end.value.height
  {
    forall s | s in sessions ensures sessions[s].status != Open {
      assert s in sessions && sessions[s].status == Open ==> s in OpenStarts(sessions);
    }
  }

  lemma AfterFlip(sessions: Sessions, b: Block)
    requires Flips(sessions, b)
    ensures var o, after := OpenSession(sessions).value, After(sessions, b).0;
            && After(sessions, b).1 == Some(b.height)
            && o in after && b.height in after && SameBut(sessions, after, {o, b.height})
            && after[o].status == Abandoned && after[o].end.Some?
            && after[o].end.value.height == (if b.height > 0 then b.height - 1 else 0)
            && if Finishes(b) then after[b.height].status == Closed && after[b.height].end.Some? && after[b.height].end.value.height == b.height
               else after[b.height].status == Open && after[b.height].end == if b.height in sessions then sessions[b.height].end else None
  {
    hide OpenSession;
    assert FLIP_LOTTERY in b.flags * PROGRESS_FLAGS;
    var o := OpenSession(sessions).value;
    assert o in sessions;
  }

  lemma AfterOpen(sessions: Sessions, b: Block)
    requires OpenSession(sessions).Some? && !Flips(sessions, b)
    ensures var o, after := OpenSession(sessions).value, After(sessions, b).0;
            && After(sessions, b).1 == Some(o) && o in after
            && if Finishes(b) then SameBut(sessions, after, {o}) && after[o].status == Closed && after[o].end.Some? && after[o].end.value.height == b.height
               else SameBut(sessions, after, {})
  {
    hide OpenSession;
  }

  lemma AfterNone(sessions: Sessions, b: Block)
    requires OpenSession(sessions).None?
    ensures var after := After(sessions, b).0;
            if Finishes(b) then
              && After(sessions, b).1 == Some(b.height) && b.height in after && SameBut(sessions, after, {b.height})
              && after[b.height].status == Closed && after[b.height].end.Some? && after[b.height].end.value.height == b.height
            else if Progresses(b) then
              && After(sessions, b).1 == Some(b.height) && b.height in after && SameBut(sessions, after, {b.height})
              && after[b.height].status == Open && after[b.height].end == if b.height in sessions then sessions[b.height].end else None
            else After(sessions, b) == (sessions, None)
  {
    hide OpenSession;
  }

  // ---------------------------------------------------------------- disjointness

  lemma FlipDisjoint(sessions: Sessions, b: Block, last: int)
    requires Disjoint(sessions, last) && Flips(sessions, b)
    ensures Disjoint(After(sessions, b).0, Max(last, b.height)) <==> Keeps(sessions, b)
  {
    hide After, OpenSession;
    OpenIsLast(sessions, last);
    AfterFlip(sessions, b);
  }

  lemma OpenDisjoint(sessions: Sessions, b: Block, last: int)
    requires Disjoint(sessions, last) && OpenSession(sessions).Some? && !Flips(sessions, b)
    ensures Disjoint(After(sessions, b).0, Max(last, b.height)) <==> Keeps(sessions, b)
  {
    hide After, OpenSession;
    OpenIsLast(sessions, last);
    AfterOpen(sessions, b);
  }

  lemma FinishDisjoint(sessions: Sessions, b: Block, last: int)
    requires Disjoint(sessions, last) && OpenSession(sessions).None? && Finishes(b)
    ensures Disjoint(After(sessions, b).0, Max(last, b.height)) <==> Keeps(sessions, b)
  {
    hide After, OpenSession;
    NoneIsOpen(sessions, last);
    AfterNone(sessions, b);
  }

  lemma StartDisjoint(sessions: Sessions, b: Block, last: int)
    requires Disjoint(sessions, last) && OpenSession(sessions).None? && !Finishes(b)
    ensures Disjoint(After(sessions, b).0, Max(last, b.height)) <==> Keeps(sessions, b)
  {
    hide After, OpenSession;
    NoneIsOpen(sessions, last);
    AfterNone(sessions, b);
  }

  lemma NoneDisjoint(sessions: Sessions, b: Block, last: int)
    requires Disjoint(sessions, last) && OpenSession(sessions).None?
    ensures Disjoint(After(sessions, b).0, Max(last, b.height)) <==> Keeps(sessions, b)
  {
    hide After, OpenSession, Disjoint, Keeps;
    if Finishes(b) {
      FinishDisjoint(sessions, b, last);
    } else {
      StartDisjoint(sessions, b, last);
    }
  }

  lemma AfterIsRecorded(l: Ledger, b: Block)
    requires Record(l, b).Some?
    ensures var next := Record(l, b).value;
            && next.sessions == After(l.sessions, b).0
            && (b.flags * RELEVANT_FLAGS != {} ==> next.events == WithEvents(l.events, b, b.flags * RELEVANT_FLAGS, After(l.sessions, b).1))
            && (b.flags * RELEVANT_FLAGS == {} ==> next.events == l.events)
  {
    hide OpenSession, WithEvents;
    if b.flags * RELEVANT_FLAGS == {} {
      assert b.flags * PROGRESS_FLAGS == {};
      assert FLIP_LOTTERY in RELEVANT_FLAGS && VALIDATION_FINISHED in RELEVANT_FLAGS;
      var open := OpenSession(l.sessions);
      if open.Some? && open.value in l.sessions {
        assert l.sessions[open.value].flags + {} == l.sessions[open.value].flags;
      }
    }
  }

  /** Exactly when a block keeps the sessions disjoint, whatever its height: the condition is about the table and the
      block. */
  lemma DisjointIff(l: Ledger, b: Block, last: int)
    requires Disjoint(l.sessions, last) && Record(l, b).Some?
    ensures Disjoint(Record(l, b).value.sessions, Max(last, b.height)) <==> Keeps(l.sessions, b)
  {
    hide Record, After, OpenSession, Disjoint, Keeps;
    AfterIsRecorded(l, b);
    if OpenSession(l.sessions).None? {
      NoneDisjoint(l.sessions, b, last);
    } else if Flips(l.sessions, b) {
      FlipDisjoint(l.sessions, b, last);
    } else {
      OpenDisjoint(l.sessions, b, last);
    }
  }

  // ----------------------------------------------------------------- attribution

  /** Every relevant flag of the block already has its event. */
  ghost predicate AllKnown(events: Events, b: Block) {
    forall flag | flag in b.flags * RELEVANT_FLAGS :: (b.height, flag) in events
  }

  ghost predicate NoEventFrom(events: Events, height: int) {
    forall key | key in events :: key.0 < height
  }

  /** The block, which keeps the intervals, also leaves every event with the session that contains its block: nothing
      recorded lies where a session is cut off or begins, and no new event lies outside the session it names, or inside
      one when it names none. */
  ghost predicate KeepsEvents(sessions: Sessions, events: Events, b: Block) {
    var open := OpenSession(sessions);
    if open.Some? then
      if Flips(sessions, b) then NoEventFrom(events, b.height)
      else if Finishes(b) then NoEventFrom(events, b.height + 1)
      else open.value <= b.height || AllKnown(events, b)
    else if Finishes(b) then
      if b.height in sessions then forall key | key in events && key.0 > b.height :: !Contains(sessions, b.height, key.0)
      else forall key | key in events :: key.0 != b.height
    else if Progresses(b) then NoEventFrom(events, b.height)
    else !Inside(sessions, b.height) || AllKnown(events, b)
  }

  /** One event is attributed. */
  ghost predicate Placed(sessions: Sessions, height: nat, session: Option<nat>) {
    if session.Some? then session.value in sessions && Contains(sessions, session.value, height)
    else !Inside(sessions, height)
  }

  lemma PlacedIff(sessions: Sessions, events: Events, last: int)
    ensures Attributed(sessions, events, last) <==>
              forall key | key in events :: key.0 <= last && Placed(sessions, key.0, events[key].session)
  {
  }

  /** Attribution after a block: the old events are where they belong, and so are the new ones, if there are any. */
  lemma AttributedSplit(sessions: Sessions, events: Events, b: Block, session: Option<nat>, last: int)
    requires forall key | key in events :: key.0 <= last
    ensures Attributed(sessions, WithEvents(events, b, b.flags * RELEVANT_FLAGS, session), Max(last, b.height)) <==>
              && (forall key | key in events :: Placed(sessions, key.0, events[key].session))
              && (AllKnown(events, b) || Placed(sessions, b.height, session))
  {
    hide Placed, RELEVANT_FLAGS;
    var relevant := b.flags * RELEVANT_FLAGS;
    var all := WithEvents(events, b, relevant, session);
    PlacedIff(sessions, all, Max(last, b.height));
    assert forall key | key in events :: key in all && all[key] == events[key];
    if !AllKnown(events, b) {
      var flag :| flag in relevant && (b.height, flag) !in events;
      assert (b.height, flag) in all && all[(b.height, flag)].session == session;
    }
    forall key | key in all ensures key in events || (key.0 == b.height && all[key].session == session && !AllKnown(events, b)) {
      if key !in events {
        assert key.1 in relevant && key == (b.height, key.1);
      }
    }
  }

  /** Before the block, an event names the session that contains its block, if one does. */
  lemma PlacedBefore(sessions: Sessions, events: Events, last: int, key: (nat, string))
    requires Disjoint(sessions, last) && Attributed(sessions, events, last) && key in events
    ensures Placed(sessions, key.0, events[key].session)
    ensures forall s | s in sessions && Contains(sessions, s, key.0) :: events[key].session == Some(s)
  {
    forall s | s in sessions && Contains(sessions, s, key.0) ensures events[key].session == Some(s) {
      NamedSessionIsUnique(sessions, events, last, key, s);
    }
  }

  /** Where the old events stand after the block. */
  ghost predicate OldPlaced(sessions: Sessions, events: Events) {
    forall key | key in events :: Placed(sessions, key.0, events[key].session)
  }

  lemma FlipPlaces(sessions: Sessions, events: Events, b: Block, last: int)
    requires Disjoint(sessions, last) && Attributed(sessions, events, last) && Flips(sessions, b) && Keeps(sessions, b)
    ensures OldPlaced(After(sessions, b).0, events) <==> NoEventFrom(events, b.height)
    ensures Placed(After(sessions, b).0, b.height, After(sessions, b).1)
  {
    hide After, OpenSession, Disjoint, Attributed;
    OpenIsLast(sessions, last);
    AfterFlip(sessions, b);
    var after := After(sessions, b).0;
    forall key | key in events ensures Placed(after, key.0, events[key].session) <==> key.0 < b.height {
      PlacedBefore(sessions, events, last, key);
      var o := OpenSession(sessions).value;
      assert key.0 >= o ==> Contains(sessions, o, key.0);
    }
  }

  lemma OpenPlaces(sessions: Sessions, events: Events, b: Block, last: int)
    requires Disjoint(sessions, last) && Attributed(sessions, events, last)
    requires OpenSession(sessions).Some? && !Flips(sessions, b) && Keeps(sessions, b)
    ensures OldPlaced(After(sessions, b).0, events) <==> (Finishes(b) ==> NoEventFrom(events, b.height + 1))
    ensures Placed(After(sessions, b).0, b.height, After(sessions, b).1) <==> OpenSession(sessions).value <= b.height
  {
    hide After, OpenSession, Disjoint, Attributed;
    OpenIsLast(sessions, last);
    AfterOpen(sessions, b);
    var after := After(sessions, b).0;
    forall key | key in events ensures Placed(after, key.0, events[key].session) <==> (Finishes(b) ==> key.0 <= b.height) {
      PlacedBefore(sessions, events, last, key);
      var o := OpenSession(sessions).value;
      assert key.0 >= o ==> Contains(sessions, o, key.0);
    }
  }

  lemma FinishPlaces(sessions: Sessions, events: Events, b: Block, last: int)
    requires Disjoint(sessions, last) && Attributed(sessions, events, last)
    requires OpenSession(sessions).None? && Finishes(b) && Keeps(sessions, b)
    ensures OldPlaced(After(sessions, b).0, events) <==> KeepsEvents(sessions, events, b)
    ensures Placed(After(sessions, b).0, b.height, After(sessions, b).1)
  {
    hide After, OpenSession, Disjoint, Attributed;
    NoneIsOpen(sessions, last);
    AfterNone(sessions, b);
    var after := After(sessions, b).0;
    forall key | key in events
      ensures Placed(after, key.0, events[key].session) <==>
                if b.height in sessions then key.0 > b.height ==> !Contains(sessions, b.height, key.0) else key.0 != b.height
    {
      PlacedBefore(sessions, events, last, key);
      assert Contains(after, b.height, key.0) <==> key.0 == b.height;
      assert forall s | s in sessions && s != b.height :: s in after && (Contains(after, s, key.0) <==> Contains(sessions, s, key.0));
    }
  }

  lemma StartPlaces(sessions: Sessions, events: Events, b: Block, last: int)
    requires Disjoint(sessions, last) && Attributed(sessions, events, last)
    requires OpenSession(sessions).None? && !Finishes(b) && Progresses(b) && Keeps(sessions, b)
    ensures OldPlaced(After(sessions, b).0, events) <==> NoEventFrom(events, b.height)
    ensures Placed(After(sessions, b).0, b.height, After(sessions, b).1)
  {
    hide After, OpenSession, Disjoint, Attributed;
    NoneIsOpen(sessions, last);
    AfterNone(sessions, b);
    var after := After(sessions, b).0;
    forall key | key in events ensures Placed(after, key.0, events[key].session) <==> key.0 < b.height {
      PlacedBefore(sessions, events, last, key);
    }
  }

  /** Exactly when a block that keeps the sessions disjoint also keeps every event attributed. */
  lemma AttributedIff(l: Ledger, b: Block, last: int)
    requires Disjoint(l.sessions, last) && Attributed(l.sessions, l.events, last) && Keeps(l.sessions, b) && Record(l, b).Some?
    ensures var next := Record(l, b).value;
            Attributed(next.sessions, next.events, Max(last, b.height)) <==> KeepsEvents(l.sessions, l.events, b)
  {
    hide Record, After, OpenSession, Disjoint, Placed, Inside, RELEVANT_FLAGS, Attributed, WithEvents;
    AfterIsRecorded(l, b);
    EventsBelow(l.sessions, l.events, last);
    var (after, session) := After(l.sessions, b);
    if b.flags * RELEVANT_FLAGS == {} {
      assert WithEvents(l.events, b, {}, session) == l.events by { NothingAdded(l.events, b, session); }
    }
    AttributedSplit(after, l.events, b, session, last);
    if OpenSession(l.sessions).Some? {
      if Flips(l.sessions, b) {
        FlipPlaces(l.sessions, l.events, b, last);
      } else {
        OpenPlaces(l.sessions, l.events, b, last);
      }
    } else if Finishes(b) {
      FinishPlaces(l.sessions, l.events, b, last);
    } else if Progresses(b) {
      StartPlaces(l.sessions, l.events, b, last);
    } else {
      AfterNone(l.sessions, b);
      PlacedIff(l.sessions, l.events, last);
      UnnamedIsPlaced(l.sessions, b.height);
    }
  }

  lemma EventsBelow(sessions: Sessions, events: Events, last: int)
    requires Attributed(sessions, events, last)
    ensures forall key | key in events :: key.0 <= last
  {
  }

  lemma NothingAdded(events: Events, b: Block, session: Option<nat>)
    ensures WithEvents(events, b, {}, session) == events
  {
  }

  lemma UnnamedIsPlaced(sessions: Sessions, height: nat)
    ensures Placed(sessions, height, None) <==> !Inside(sessions, height)
  {
  }

  // ------------------------------------------------------------------- whole runs

  /** The greatest height scanned, below all heights when nothing was. */
  function Reached(blocks: seq<Block>): int {
    if blocks == [] then -1 else Max(Reached(blocks[..|blocks| - 1]), blocks[|blocks| - 1].height)
  }

  ghost predicate DisjointAfter(blocks: seq<Block>, i: nat)
    requires i <= |blocks|
  {
    Disjoint(Run(EMPTY, blocks[..i]).sessions, Reached(blocks[..i]))
  }

  /** The block is refused, or keeps the intervals it finds. */
  ghost predicate KeepsAt(blocks: seq<Block>, i: nat)
    requires i < |blocks|
  {
    var l := Run(EMPTY, blocks[..i]);
    Record(l, blocks[i]).None? || Keeps(l.sessions, blocks[i])
  }

  lemma StepDisjoint(blocks: seq<Block>, i: nat)
    requires i < |blocks| && DisjointAfter(blocks, i)
    ensures DisjointAfter(blocks, i + 1) <==> KeepsAt(blocks, i)
  {
    hide Record, Disjoint, Keeps;
    assert blocks[..i + 1][..i] == blocks[..i];
    var l := Run(EMPTY, blocks[..i]);
    if Record(l, blocks[i]).Some? {
      DisjointIff(l, blocks[i], Reached(blocks[..i]));
    } else {
      HigherIsDisjoint(l.sessions, Reached(blocks[..i]), Reached(blocks[..i + 1]));
    }
  }

  lemma HigherIsDisjoint(sessions: Sessions, last: int, higher: int)
    requires Disjoint(sessions, last) && last <= higher
    ensures Disjoint(sessions, higher)
  {
  }

  lemma {:induction false} DisjointUpTo(blocks: seq<Block>, n: nat)
    requires n <= |blocks|
    ensures (forall i | 0 <= i <= n :: DisjointAfter(blocks, i)) <==> (forall i | 0 <= i < n :: KeepsAt(blocks, i))
    decreases n
  {
    hide Run, Disjoint, DisjointAfter, KeepsAt;
    if n == 0 {
      assert blocks[..0] == [];
      NothingYet(blocks);
    } else {
      DisjointUpTo(blocks, n - 1);
      if DisjointAfter(blocks, n - 1) {
        StepDisjoint(blocks, n - 1);
      }
    }
  }

  lemma NothingYet(blocks: seq<Block>)
    ensures DisjointAfter(blocks, 0)
  {
    assert blocks[..0] == [];
  }

  /** A run over any blocks, in any order and with any repetition, has disjoint sessions at all times if and only if
      every block it does not refuse keeps the intervals it finds. */
  lemma RunStaysDisjointIff(blocks: seq<Block>)
    ensures (forall i | 0 <= i <= |blocks| :: DisjointAfter(blocks, i)) <==> (forall i | 0 <= i < |blocks| :: KeepsAt(blocks, i))
  {
    DisjointUpTo(blocks, |blocks|);
  }

  ghost predicate OrderlyAfter(blocks: seq<Block>, i: nat)
    requires i <= |blocks|
  {
    DisjointAfter(blocks, i) && Attributed(Run(EMPTY, blocks[..i]).sessions, Run(EMPTY, blocks[..i]).events, Reached(blocks[..i]))
  }

  ghost predicate KeepsAllAt(blocks: seq<Block>, i: nat)
    requires i < |blocks|
  {
    var l := Run(EMPTY, blocks[..i]);
    Record(l, blocks[i]).None? || (Keeps(l.sessions, blocks[i]) && KeepsEvents(l.sessions, l.events, blocks[i]))
  }

  lemma StepOrderly(blocks: seq<Block>, i: nat)
    requires i < |blocks| && OrderlyAfter(blocks, i)
    ensures OrderlyAfter(blocks, i + 1) <==> KeepsAllAt(blocks, i)
  {
    hide Record, Disjoint, Attributed, Keeps, KeepsEvents;
    StepDisjoint(blocks, i);
    assert blocks[..i + 1][..i] == blocks[..i];
    var l := Run(EMPTY, blocks[..i]);
    if Record(l, blocks[i]).None? {
      HigherIsAttributed(l.sessions, l.events, Reached(blocks[..i]), Reached(blocks[..i + 1]));
    } else if Keeps(l.sessions, blocks[i]) {
      AttributedIff(l, blocks[i], Reached(blocks[..i]));
    }
  }

  lemma HigherIsAttributed(sessions: Sessions, events: Events, last: int, higher: int)
    requires Attributed(sessions, events, last) && last <= higher
    ensures Attributed(sessions, events, higher)
  {
  }

  lemma {:induction false} OrderlyUpTo(blocks: seq<Block>, n: nat)
    requires n <= |blocks|
    ensures (forall i | 0 <= i <= n :: OrderlyAfter(blocks, i)) <==> (forall i | 0 <= i < n :: KeepsAllAt(blocks, i))
    decreases n
  {
    hide Run, Disjoint, OrderlyAfter, KeepsAllAt;
    if n == 0 {
      NothingIsOrderly(blocks);
    } else {
      OrderlyUpTo(blocks, n - 1);
      if OrderlyAfter(blocks, n - 1) {
        StepOrderly(blocks, n - 1);
      }
    }
  }

  lemma NothingIsOrderly(blocks: seq<Block>)
    ensures OrderlyAfter(blocks, 0)
  {
    assert blocks[..0] == [];
  }

  /** The same with the events: at all times the sessions are disjoint and every event names the session that contains
      its block, or none if none does, if and only if every block that is not refused keeps both. */
  lemma RunStaysOrderlyIff(blocks: seq<Block>)
    ensures (forall i | 0 <= i <= |blocks| :: OrderlyAfter(blocks, i)) <==> (forall i | 0 <= i < |blocks| :: KeepsAllAt(blocks, i))
  {
    OrderlyUpTo(blocks, |blocks|);
  }

  // ------------------------------------------------------------------------- flags

  /** The block starts a session, perhaps again. */
  predicate Restarts(sessions: Sessions, b: Block) {
    (OpenSession(sessions).None? || Flips(sessions, b)) && (Progresses(b) || Finishes(b))
  }

  /** The session the events of the block name: its own if it starts one, otherwise the open one, if any. */
  function SessionNamed(sessions: Sessions, b: Block): Option<nat> {
    if Restarts(sessions, b) then Some(b.height) else OpenSession(sessions)
  }

  lemma NamedIsAfter(sessions: Sessions, b: Block)
    ensures After(sessions, b).1 == SessionNamed(sessions, b)
  {
    hide After, OpenSession, PROGRESS_FLAGS;
    if OpenSession(sessions).None? {
      AfterNone(sessions, b);
    } else if Flips(sessions, b) {
      AfterFlip(sessions, b);
      FlipIsProgress(b);
    } else {
      AfterOpen(sessions, b);
    }
  }

  ghost predicate NamesExist(sessions: Sessions, events: Events) {
    forall key | key in events && events[key].session.Some? :: events[key].session.value in sessions
  }

  /** The block leaves the flags of its session in step with the events that name it: each of its relevant flags is new
      at its height or already a flag of that session, and a session that is started again has no other relevant flag. */
  ghost predicate KeepsFlags(sessions: Sessions, events: Events, b: Block) {
    var session := SessionNamed(sessions, b);
    session.Some? ==>
      && (forall flag | flag in b.flags * RELEVANT_FLAGS ::
            (b.height, flag) !in events || (session.value in sessions && flag in sessions[session.value].flags))
      && (Restarts(sessions, b) && b.height in sessions ==> sessions[b.height].flags * RELEVANT_FLAGS <= b.flags)
  }

  /** The flags of every session after a block. */
  lemma FlagsAfter(sessions: Sessions, b: Block, s: nat, flag: string)
    requires flag in RELEVANT_FLAGS
    ensures var (after, session) := After(sessions, b);
            && (s in after <==> s in sessions || session == Some(s))
            && (session.Some? && session.value !in sessions ==> session.value == b.height && Restarts(sessions, b))
            && (Restarts(sessions, b) ==> session == Some(b.height))
            && (s in after ==>
                  (flag in after[s].flags <==>
                     if session != Some(s) then flag in sessions[s].flags
                     else if Restarts(sessions, b) then flag in b.flags
                     else flag in sessions[s].flags || flag in b.flags))
  {
    hide OpenSession, RELEVANT_FLAGS, PROGRESS_FLAGS;
    if FLIP_LOTTERY in b.flags {
      FlipIsProgress(b);
    }
  }

  lemma FlipIsProgress(b: Block)
    requires FLIP_LOTTERY in b.flags
    ensures b.flags * PROGRESS_FLAGS != {}
  {
    assert FLIP_LOTTERY in b.flags * PROGRESS_FLAGS;
  }

  /** Which events name a session after a block. */
  lemma NamedAfter(events: Events, b: Block, session: Option<nat>, s: nat, flag: string)
    requires flag in RELEVANT_FLAGS
    ensures Named(WithEvents(events, b, b.flags * RELEVANT_FLAGS, session), s, flag)
       <==> Named(events, s, flag) || (session == Some(s) && flag in b.flags && (b.height, flag) !in events)
  {
    hide RELEVANT_FLAGS;
    var relevant := b.flags * RELEVANT_FLAGS;
    var all := WithEvents(events, b, relevant, session);
    if flag in b.flags {
      assert (b.height, flag) in all;
    }
    if h: nat :| (h, flag) in events && events[(h, flag)].session == Some(s) {
      assert (h, flag) in all && all[(h, flag)].session == Some(s);
    }
    if h: nat :| (h, flag) in all && all[(h, flag)].session == Some(s) {
      assert (h, flag) in events || h == b.height;
    }
  }

  lemma NamedExists(sessions: Sessions, events: Events, s: nat, flag: string)
    requires NamesExist(sessions, events)
    ensures Named(events, s, flag) ==> s in sessions
  {
  }

  /** One flag of one session is in step after the block. */
  lemma FlagInStep(sessions: Sessions, events: Events, b: Block, s: nat, flag: string)
    requires FlagsMatch(sessions, events) && NamesExist(sessions, events) && flag in RELEVANT_FLAGS
    ensures var (after, session) := After(sessions, b);
            s in after ==>
              ((flag in after[s].flags <==> Named(WithEvents(events, b, b.flags * RELEVANT_FLAGS, session), s, flag)) <==>
               (session == Some(s) ==>
                  && (flag in b.flags ==> (b.height, flag) !in events || (s in sessions && flag in sessions[s].flags))
                  && (Restarts(sessions, b) && s in sessions && flag in sessions[s].flags ==> flag in b.flags)))
  {
    hide After, WithEvents, RELEVANT_FLAGS, Named, Restarts;
    FlagsAfter(sessions, b, s, flag);
    NamedAfter(events, b, After(sessions, b).1, s, flag);
    NamedExists(sessions, events, s, flag);
  }

  /** Exactly when a block, at any height, keeps the relevant flags of every session the flags of the events that name it. */
  lemma FlagsMatchIff(l: Ledger, b: Block)
    requires FlagsMatch(l.sessions, l.events) && NamesExist(l.sessions, l.events) && Record(l, b).Some?
    ensures var next := Record(l, b).value;
            FlagsMatch(next.sessions, next.events) <==> KeepsFlags(l.sessions, l.events, b)
  {
    hide After, WithEvents, RELEVANT_FLAGS, Named, Record, Restarts, SessionNamed;
    AfterIsRecorded(l, b);
    NamedIsAfter(l.sessions, b);
    var (after, session) := After(l.sessions, b);
    if b.flags * RELEVANT_FLAGS == {} {
      assert WithEvents(l.events, b, {}, session) == l.events by { NothingAdded(l.events, b, session); }
    }
    forall s, flag | s in after && flag in RELEVANT_FLAGS
      ensures (flag in after[s].flags <==> Named(Record(l, b).value.events, s, flag)) <==>
              (session == Some(s) ==>
                 && (flag in b.flags ==> (b.height, flag) !in l.events || (s in l.sessions && flag in l.sessions[s].flags))
                 && (Restarts(l.sessions, b) && s in l.sessions && flag in l.sessions[s].flags ==> flag in b.flags))
    {
      FlagInStep(l.sessions, l.events, b, s, flag);
    }
    if session.Some? {
      SessionOfBlock(l.sessions, b);
    }
  }

  lemma SessionOfBlock(sessions: Sessions, b: Block)
    ensures var (after, session) := After(sessions, b);
            && (session.Some? ==> session.value in after)
            && (Restarts(sessions, b) ==> session == Some(b.height))
            && (forall s | s in sessions :: s in after)
  {
    hide OpenSession, RELEVANT_FLAGS, PROGRESS_FLAGS;
    if FLIP_LOTTERY in b.flags {
      FlipIsProgress(b);
    }
  }

  /** Events always name sessions of the table. */
  lemma NamesStay(l: Ledger, b: Block)
    requires NamesExist(l.sessions, l.events) && Record(l, b).Some?
    ensures NamesExist(Record(l, b).value.sessions, Record(l, b).value.events)
  {
    hide After, RELEVANT_FLAGS, Record;
    AfterIsRecorded(l, b);
    SessionOfBlock(l.sessions, b);
  }

  ghost predicate MatchedAfter(blocks: seq<Block>, i: nat)
    requires i <= |blocks|
  {
    var l := Run(EMPTY, blocks[..i]);
    FlagsMatch(l.sessions, l.events)
  }

  ghost predicate KeepsFlagsAt(blocks: seq<Block>, i: nat)
    requires i < |blocks|
  {
    var l := Run(EMPTY, blocks[..i]);
    Record(l, blocks[i]).None? || KeepsFlags(l.sessions, l.events, blocks[i])
  }

  lemma {:induction false} NamesExistAfter(blocks: seq<Block>)
    ensures NamesExist(Run(EMPTY, blocks).sessions, Run(EMPTY, blocks).events)
    decreases |blocks|
  {
    hide Record, NamesExist;
    if blocks == [] {
      NoNames();
    } else {
      var front := blocks[..|blocks| - 1];
      NamesExistAfter(front);
      if Record(Run(EMPTY, front), blocks[|blocks| - 1]).Some? {
        NamesStay(Run(EMPTY, front), blocks[|blocks| - 1]);
      }
    }
  }

  lemma NoNames()
    ensures NamesExist(EMPTY.sessions, EMPTY.events)
  {
  }

  lemma {:induction false} MatchedUpTo(blocks: seq<Block>, n: nat)
    requires n <= |blocks|
    ensures (forall i | 0 <= i <= n :: MatchedAfter(blocks, i)) <==> (forall i | 0 <= i < n :: KeepsFlagsAt(blocks, i))
    decreases n
  {
    hide Run, MatchedAfter, KeepsFlagsAt;
    if n == 0 {
      NothingToMatch(blocks);
    } else {
      MatchedUpTo(blocks, n - 1);
      if MatchedAfter(blocks, n - 1) {
        StepMatched(blocks, n - 1);
      }
    }
  }

  lemma NothingToMatch(blocks: seq<Block>)
    ensures MatchedAfter(blocks, 0)
  {
    assert blocks[..0] == [];
    NoFlags();
  }

  lemma StepMatched(blocks: seq<Block>, i: nat)
    requires i < |blocks| && MatchedAfter(blocks, i)
    ensures MatchedAfter(blocks, i + 1) <==> KeepsFlagsAt(blocks, i)
  {
    hide FlagsMatch, Record, KeepsFlags, NamesExist;
    assert blocks[..i + 1][..i] == blocks[..i];
    var l := Run(EMPTY, blocks[..i]);
    NamesExistAfter(blocks[..i]);
    if Record(l, blocks[i]).Some? {
      FlagsMatchIff(l, blocks[i]);
    }
  }

  /** A run over any blocks has, at all times, for every session exactly the flags of the events that name it if and only
      if every block that is not refused keeps them in step. */
  lemma RunStaysMatchedIff(blocks: seq<Block>)
    ensures (forall i | 0 <= i <= |blocks| :: MatchedAfter(blocks, i)) <==> (forall i | 0 <= i < |blocks| :: KeepsFlagsAt(blocks, i))
  {
    MatchedUpTo(blocks, |blocks|);
  }

  // --------------------------------------------------------------- a run that fails

  const FIRST_BLOCK := Block(1, "a", 10, {"ShortSessionStarted"})
  const LAST_BLOCK := Block(2, "b", 20, {VALIDATION_FINISHED})

  lemma FirstOpens()
    ensures Record(EMPTY, FIRST_BLOCK) == Some(FirstLedger())
  {
    assert OpenStarts(EMPTY.sessions) == {};
    assert FIRST_BLOCK.flags * PROGRESS_FLAGS == FIRST_BLOCK.flags && FIRST_BLOCK.flags * RELEVANT_FLAGS == FIRST_BLOCK.flags;
    assert "ShortSessionStarted" in FIRST_BLOCK.flags;
    assert FirstLedger().events == WithEvents(map[], FIRST_BLOCK, FIRST_BLOCK.flags, Some(1));
  }

  function FirstLedger(): Ledger {
    Ledger(map[1 := "a"], map[1 := Session("a", 10, None, Open, FIRST_BLOCK.flags)],
           WithEvents(map[], FIRST_BLOCK, FIRST_BLOCK.flags, Some(1)), 1, "a")
  }

  lemma SecondCloses()
    ensures Record(FirstLedger(), LAST_BLOCK).Some?
    ensures var l := Record(FirstLedger(), LAST_BLOCK).value;
            && l.blocks == map[1 := "a", 2 := "b"] && OpenSession(l.sessions).None?
            && 1 in l.sessions && l.sessions[1].end == Some(End(2, "b", 20)) && l.sessions.Keys == {1}
            && (2, VALIDATION_FINISHED) in l.events && l.events[(2, VALIDATION_FINISHED)].session == Some(1)
  {
    hide WithEvents, OpenSession;
    var l := FirstLedger();
    assert 1 in OpenStarts(l.sessions);
    var open := OpenSession(l.sessions);
    assert open == Some(1);
    assert FLIP_LOTTERY !in LAST_BLOCK.flags;
    assert VALIDATION_FINISHED in LAST_BLOCK.flags * RELEVANT_FLAGS;
    AfterIsRecorded(l, LAST_BLOCK);
    AfterOpen(l.sessions, LAST_BLOCK);
    var after := After(l.sessions, LAST_BLOCK).0;
    assert OpenStarts(after) == {};
    FirstEvents();
    LastEvent(l.events);
  }

  lemma FirstEvents()
    ensures forall key | key in FirstLedger().events :: key.0 == 1
  {
  }

  lemma LastEvent(events: Events)
    requires (2, VALIDATION_FINISHED) !in events
    ensures var all := WithEvents(events, LAST_BLOCK, LAST_BLOCK.flags * RELEVANT_FLAGS, Some(1));
            (2, VALIDATION_FINISHED) in all && all[(2, VALIDATION_FINISHED)].session == Some(1)
  {
    assert VALIDATION_FINISHED in LAST_BLOCK.flags * RELEVANT_FLAGS;
  }

  lemma OldEventStays(events: Events, b: Block, flags: set<string>, session: Option<nat>, key: (nat, string))
    requires key in events
    ensures key in WithEvents(events, b, flags, session) && WithEvents(events, b, flags, session)[key] == events[key]
  {
  }

  /** Scanning the first block of a finished session again: the session is open once more and keeps its old end, so
      that the sessions of this run are not disjoint; and it lost a flag that one of its events still has. */
  lemma RescanKeepsStaleEnd()
    ensures var sessions := Run(EMPTY, [FIRST_BLOCK, LAST_BLOCK, FIRST_BLOCK]).sessions;
            && 1 in sessions && sessions[1].status == Open && sessions[1].end == Some(End(2, "b", 20))
            && (forall last :: !Disjoint(sessions, last))
            && !FlagsMatch(sessions, Run(EMPTY, [FIRST_BLOCK, LAST_BLOCK, FIRST_BLOCK]).events)
  {
    hide WithEvents, OpenSession, Record;
    var run := [FIRST_BLOCK, LAST_BLOCK, FIRST_BLOCK];
    assert run[..2] == [FIRST_BLOCK, LAST_BLOCK] && [FIRST_BLOCK, LAST_BLOCK][..1] == [FIRST_BLOCK] && [FIRST_BLOCK][..0] == [];
    FirstOpens();
    SecondCloses();
    var l := Record(FirstLedger(), LAST_BLOCK).value;
    assert Run(EMPTY, [FIRST_BLOCK]) == FirstLedger();
    assert Run(EMPTY, run[..2]) == l;
    RecordsAgain(l);
    AfterIsRecorded(l, FIRST_BLOCK);
    assert "ShortSessionStarted" in FIRST_BLOCK.flags * PROGRESS_FLAGS;
    AfterNone(l.sessions, FIRST_BLOCK);
    FlagsAfter(l.sessions, FIRST_BLOCK, 1, VALIDATION_FINISHED);
    OldEventStays(l.events, FIRST_BLOCK, FIRST_BLOCK.flags * RELEVANT_FLAGS, Some(1), (2, VALIDATION_FINISHED));
    assert Named(Record(l, FIRST_BLOCK).value.events, 1, VALIDATION_FINISHED);
  }

  lemma RecordsAgain(l: Ledger)
    requires l.blocks == map[1 := "a", 2 := "b"]
    ensures Record(l, FIRST_BLOCK).Some?
  {
    hide RecordFlags;
  }
}
