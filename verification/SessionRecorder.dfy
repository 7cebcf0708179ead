/**
 The Idena session recorder: blocks with consensus flags are recorded into tables of
 blocks, sessions and session events.

 `Record` gives the tables after one block; the class performs the source's table
 updates and is proved equal to it. Over runs:

 - `AtMostOneOpenSession`: at most one session is open, re-scans included;
 - `SessionsAreDisjoint`: when heights strictly increase, sessions are disjoint ordered
   height intervals with only the last possibly open, and every event names the session
   that contains its block, or none when there is none.
 */
module SessionRecorder {
  import opened ByteStrings

  const FLIP_LOTTERY := "FlipLotteryStarted"
  const VALIDATION_FINISHED := "ValidationFinished"

  const PROGRESS_FLAGS: set<string> :=
    {FLIP_LOTTERY, "ShortSessionStarted", "LongSessionStarted", "AfterLongSessionStarted"}

  const RELEVANT_FLAGS: set<string> :=
    PROGRESS_FLAGS + {VALIDATION_FINISHED, "IdentityUpdate", "OfflinePropose", "OfflineCommit", "Snapshot"}

  /** A normalized block. */
  datatype Block = Block(height: nat, hash: string, timestamp: nat, flags: set<string>)

  datatype Status = Open | Closed | Abandoned

  datatype End = End(height: nat, hash: string, timestamp: nat)

  /** A row of the sessions table, which is keyed by the start height. */
  datatype Session = Session(startHash: string, startTimestamp: nat, end: Option<End>, status: Status, flags: set<string>)

  /** A row of the events table, which is keyed by block height and flag. */
  datatype Event = Event(blockHash: string, timestamp: nat, session: Option<nat>)

  type Sessions = map<nat, Session>
  type Events = map<(nat, string), Event>

  datatype Ledger = Ledger(blocks: map<nat, string>, sessions: Sessions, events: Events, lastHeight: nat, lastHash: string)

  const EMPTY := Ledger(map[], map[], map[], 0, "")

  // --------------------------------------------------------------- table updates

  function OpenStarts(sessions: Sessions): set<nat> {
    set start | start in sessions && sessions[start].status == Open
  }

  lemma {:induction false} LatestExists(starts: set<nat>)
    requires starts != {}
    ensures exists start :: start in starts && forall other | other in starts :: other <= start
    decreases starts
  {
    var one :| one in starts;
    if starts != {one} {
      LatestExists(starts - {one});
      var most :| most in starts - {one} && forall other | other in starts - {one} :: other <= most;
      var latest := if one <= most then most else one;
      forall other | other in starts ensures other <= latest {
        assert other == one || other in starts - {one};
      }
    } else {
      assert forall other | other in starts :: other <= one;
    }
  }

  /** The open session with the greatest start height. */
  function OpenSession(sessions: Sessions): (r: Option<nat>)
    ensures r.None? <==> OpenStarts(sessions) == {}
    ensures r.Some? ==> r.value in OpenStarts(sessions)
  {
    if OpenStarts(sessions) == {} then None
    else
      LatestExists(OpenStarts(sessions));
      var latest :| latest in OpenStarts(sessions) && forall other | other in OpenStarts(sessions) :: other <= latest;
      Some(latest)
  }

  /** An insert that on conflict keeps the end columns of the row it finds. */
  function Started(sessions: Sessions, b: Block): Sessions {
    var end := if b.height in sessions then sessions[b.height].end else None;
    sessions[b.height := Session(b.hash, b.timestamp, end, Open, b.flags)]
  }

  function ClosedAt(sessions: Sessions, start: nat, b: Block): Sessions {
    if start !in sessions then sessions
    else
      var row := sessions[start];
      sessions[start := row.(end := Some(End(b.height, b.hash, b.timestamp)), status := Closed, flags := row.flags + b.flags)]
  }

  function AbandonedAt(sessions: Sessions, b: Block): Sessions {
    var open := OpenSession(sessions);
    if open.None? then sessions
    else
      var height := if b.height > 0 then b.height - 1 else 0;
      sessions[open.value := sessions[open.value].(end := Some(End(height, "", b.timestamp)), status := Abandoned)]
  }

  function Flagged(sessions: Sessions, start: nat, flags: set<string>): Sessions {
    if start !in sessions then sessions
    else sessions[start := sessions[start].(flags := sessions[start].flags + flags)]
  }

  /** The tables agree in all rows but this one. */
  ghost predicate SameRowsBut(before: Sessions, after: Sessions, start: nat) {
    before.Keys - {start} == after.Keys - {start} && forall s | s in before && s in after && s != start :: after[s] == before[s]
  }

  // ----------------------------------------------------------------- one block

  /** The session the block belongs to, after a flip lottery has put an end to an older one. */
  function Current(sessions: Sessions, b: Block): (Sessions, Option<nat>) {
    var open := OpenSession(sessions);
    if FLIP_LOTTERY in b.flags && open.Some? && open.value != b.height then (AbandonedAt(sessions, b), None)
    else (sessions, open)
  }

  function Entered(sessions: Sessions, b: Block): (Sessions, Option<nat>) {
    var (current, open) := Current(sessions, b);
    if b.flags * PROGRESS_FLAGS != {} && open.None? then (Started(current, b), Some(b.height))
    else if open.Some? then (Flagged(current, open.value, b.flags * RELEVANT_FLAGS), open)
    else (current, None)
  }

  function Left(sessions: Sessions, start: Option<nat>, b: Block): (Sessions, Option<nat>) {
    if VALIDATION_FINISHED !in b.flags then (sessions, start)
    else if start.None? then (ClosedAt(Started(sessions, b), b.height, b), Some(b.height))
    else (ClosedAt(sessions, start.value, b), start)
  }

  /** Rows for new keys only: the insert ignores keys it finds. */
  function WithEvents(events: Events, b: Block, flags: set<string>, start: Option<nat>): Events {
    map key | key in events.Keys + (set flag | flag in flags :: (b.height, flag)) ::
      if key in events then events[key] else Event(b.hash, b.timestamp, start)
  }

  /** `record_session_flags`. */
  function RecordFlags(l: Ledger, b: Block): Ledger {
    var relevant := b.flags * RELEVANT_FLAGS;
    if relevant == {} then l
    else
      var (entered, start) := Entered(l.sessions, b);
      var (left, session) := Left(entered, start, b);
      l.(sessions := left, events := WithEvents(l.events, b, relevant, session))
  }

  /** `record_block`: a block whose hash differs from the one recorded at its height is refused. */
  function Record(l: Ledger, b: Block): Option<Ledger> {
    if b.height in l.blocks && l.blocks[b.height] != b.hash then None
    else
      var flagged := RecordFlags(l.(blocks := l.blocks[b.height := b.hash]), b);
      Some(if b.height >= l.lastHeight then flagged.(lastHeight := b.height, lastHash := b.hash) else flagged)
  }

  /** A run: refused blocks change nothing. */
  function Run(l: Ledger, blocks: seq<Block>): Ledger {
    if blocks == [] then l
    else
      var before := Run(l, blocks[..|blocks| - 1]);
      var after := Record(before, blocks[|blocks| - 1]);
      if after.Some? then after.value else before
  }

  // ------------------------------------------------------------- one open session

  ghost predicate OneOpen(sessions: Sessions) {
    forall a, b | a in OpenStarts(sessions) && b in OpenStarts(sessions) :: a == b
  }

  lemma CurrentKeepsOne(sessions: Sessions, b: Block)
    requires OneOpen(sessions)
    ensures OneOpen(Current(sessions, b).0)
    ensures Current(sessions, b).1 == OpenSession(Current(sessions, b).0)
  {
    var (current, open) := Current(sessions, b);
    assert OpenStarts(current) <= OpenStarts(sessions);
  }

  lemma EnteredKeepsOne(sessions: Sessions, b: Block)
    requires OneOpen(sessions)
    ensures var (entered, start) := Entered(sessions, b);
            OneOpen(entered) && OpenStarts(entered) == (if start.Some? then {start.value} else {})
  {
    hide Current;
    CurrentKeepsOne(sessions, b);
    var (current, open) := Current(sessions, b);
    var (entered, start) := Entered(sessions, b);
    if start.Some? {
      forall s | s in OpenStarts(entered) ensures s == start.value {
        if open.None? {
          assert OpenStarts(current) == {};
          assert s != b.height ==> s in OpenStarts(current);
        } else {
          assert s in OpenStarts(current) && open.value in OpenStarts(current);
        }
      }
      assert start.value in OpenStarts(entered);
    }
  }

  lemma LeftKeepsOne(sessions: Sessions, start: Option<nat>, b: Block)
    requires OpenStarts(sessions) == (if start.Some? then {start.value} else {})
    ensures OneOpen(Left(sessions, start, b).0)
  {
    var left := Left(sessions, start, b).0;
    forall s | s in OpenStarts(left) ensures start.Some? && s == start.value {
      assert s in OpenStarts(sessions);
    }
  }

  lemma RecordKeepsOne(l: Ledger, b: Block)
    requires OneOpen(l.sessions)
    ensures Record(l, b).Some? ==> OneOpen(Record(l, b).value.sessions)
  {
    hide OneOpen, Left, Entered;
    if b.flags * RELEVANT_FLAGS != {} {
      EnteredKeepsOne(l.sessions, b);
      var (entered, start) := Entered(l.sessions, b);
      LeftKeepsOne(entered, start, b);
    }
  }

  /** Every run keeps at most one session open, whatever blocks are scanned and however often. */
  lemma {:induction false} AtMostOneOpenSession(blocks: seq<Block>)
    ensures OneOpen(Run(EMPTY, blocks).sessions)
    decreases |blocks|
  {
    hide Record;
    if blocks != [] {
      AtMostOneOpenSession(blocks[..|blocks| - 1]);
      RecordKeepsOne(Run(EMPTY, blocks[..|blocks| - 1]), blocks[|blocks| - 1]);
    } else {
      assert OpenStarts(EMPTY.sessions) == {};
    }
  }

  // ------------------------------------------------------- increasing heights

  /** The height lies in the session's interval; an open session has no end yet. */
  ghost predicate Contains(sessions: Sessions, start: nat, height: nat)
    requires start in sessions
  {
    start <= height && (sessions[start].end.Some? ==> height <= sessions[start].end.value.height)
  }

  /** Sessions lie at or below `last`, end where they should, and follow one another. */
  ghost predicate Disjoint(sessions: Sessions, last: int) {
    && (forall s | s in sessions ::
          && s <= last
          && (sessions[s].status == Open <==> sessions[s].end.None?)
          && (sessions[s].end.Some? ==> s <= sessions[s].end.value.height <= last))
    && (forall s, t | s in sessions && t in sessions && s < t ::
          sessions[s].end.Some? && sessions[s].end.value.height < t)
  }

  /** An event names the session that contains its block; it names none exactly when none does. */
  ghost predicate Attributed(sessions: Sessions, events: Events, last: int) {
    forall key | key in events ::
      && key.0 <= last
      && (events[key].session.Some? ==>
            events[key].session.value in sessions && Contains(sessions, events[key].session.value, key.0))
      && (events[key].session.None? ==> forall s | s in sessions :: !Contains(sessions, s, key.0))
  }

  /** The session an event names is the only one that contains its block. */
  lemma NamedSessionIsUnique(sessions: Sessions, events: Events, last: int, key: (nat, string), s: nat)
    requires Disjoint(sessions, last) && Attributed(sessions, events, last) && key in events
    requires s in sessions && Contains(sessions, s, key.0)
    ensures events[key].session == Some(s)
  {
    var named := events[key].session;
    OverlapMeansSame(sessions, last, if named.Some? then named.value else s, s, key.0);
  }

  lemma OverlapMeansSame(sessions: Sessions, last: int, s: nat, t: nat, height: nat)
    requires Disjoint(sessions, last) && s in sessions && t in sessions
    requires Contains(sessions, s, height) && Contains(sessions, t, height)
    ensures s == t
  {
  }

  /** What one block above all earlier ones does to the sessions: older blocks stay attributed as they were,
      and the block's own session is the one returned. */
  ghost predicate Advances(before: Sessions, after: Sessions, start: Option<nat>, last: int, height: nat) {
    && Disjoint(after, height)
    && (forall s | s in before :: s in after)
    && (forall s, h: nat | s in before && h <= last :: Contains(before, s, h) <==> Contains(after, s, h))
    && (forall s | s in after && s !in before :: s > last)
    && (start.Some? ==> start.value in after && Contains(after, start.value, height))
    && (start.None? ==> forall s | s in after :: !Contains(after, s, height))
  }

  /** Only this session is open, or none is. */
  ghost predicate OnlyOpen(sessions: Sessions, open: Option<nat>) {
    && (forall s | s in sessions :: sessions[s].status == Open <==> open == Some(s))
    && (open.Some? ==> open.value in sessions)
  }

  lemma DisjointHasOneOpen(sessions: Sessions, last: int)
    requires Disjoint(sessions, last)
    ensures OnlyOpen(sessions, OpenSession(sessions))
  {
    var open := OpenSession(sessions);
    forall s | s in sessions && sessions[s].status == Open ensures open == Some(s) {
      assert s in OpenStarts(sessions);
      assert open.value in sessions && sessions[open.value].status == Open;
    }
  }

  /** Sessions that are left alone: the open one, if any, goes on. */
  lemma KeepAdvances(sessions: Sessions, open: Option<nat>, last: int, height: nat)
    requires Disjoint(sessions, last) && last < height && OnlyOpen(sessions, open)
    ensures Advances(sessions, sessions, open, last, height) && height !in sessions
  {
  }

  lemma AbandonAdvances(sessions: Sessions, open: nat, last: int, height: nat, end: End)
    requires Disjoint(sessions, last) && last < height && OnlyOpen(sessions, Some(open))
    requires end.height == if height > 0 then height - 1 else 0
    ensures var after := sessions[open := sessions[open].(end := Some(end), status := Abandoned)];
            Advances(sessions, after, None, last, height) && OnlyOpen(after, None) && height !in after
  {
  }

  lemma StartAdvances(before: Sessions, sessions: Sessions, last: int, height: nat, row: Session)
    requires Advances(before, sessions, None, last, height) && OnlyOpen(sessions, None) && last < height
    requires height !in sessions && row.status == Open && row.end.None?
    ensures Advances(before, sessions[height := row], Some(height), last, height)
    ensures OnlyOpen(sessions[height := row], Some(height))
  {
  }

  /** Changing only the flags of a row changes no interval. */
  lemma FlagAdvances(before: Sessions, sessions: Sessions, start: Option<nat>, last: int, height: nat, s: nat, flags: set<string>)
    requires Advances(before, sessions, start, last, height) && OnlyOpen(sessions, start) && s in sessions
    ensures var after := sessions[s := sessions[s].(flags := flags)];
            Advances(before, after, start, last, height) && OnlyOpen(after, start)
  {
    var after := sessions[s := sessions[s].(flags := flags)];
    assert after.Keys == sessions.Keys;
    assert forall t | t in sessions :: after[t].end == sessions[t].end && after[t].status == sessions[t].status;
    assert forall t, h: nat | t in sessions :: Contains(after, t, h) <==> Contains(sessions, t, h);
    assert Disjoint(after, height);
  }

  lemma CloseAdvances(before: Sessions, sessions: Sessions, start: nat, last: int, height: nat, end: End, flags: set<string>)
    requires Advances(before, sessions, Some(start), last, height) && OnlyOpen(sessions, Some(start)) && last < height
    requires end.height == height
    ensures var after := sessions[start := sessions[start].(end := Some(end), status := Closed, flags := flags)];
            Advances(before, after, Some(start), last, height)
  {
  }

  lemma CurrentAdvances(sessions: Sessions, b: Block, last: int)
    requires Disjoint(sessions, last) && last < b.height
    ensures var (current, open) := Current(sessions, b);
            Advances(sessions, current, open, last, b.height) && OnlyOpen(current, open) && b.height !in current
  {
    hide Disjoint, Advances, OnlyOpen, OpenSession;
    DisjointHasOneOpen(sessions, last);
    var open := OpenSession(sessions);
    KeepAdvances(sessions, open, last, b.height);
    if FLIP_LOTTERY in b.flags && open.Some? {
      var end := End(if b.height > 0 then b.height - 1 else 0, "", b.timestamp);
      AbandonAdvances(sessions, open.value, last, b.height, end);
    }
  }

  lemma EnteredAdvances(sessions: Sessions, b: Block, last: int)
    requires Disjoint(sessions, last) && last < b.height
    ensures var (entered, start) := Entered(sessions, b);
            && Advances(sessions, entered, start, last, b.height) && OnlyOpen(entered, start)
            && (start.None? ==> b.height !in entered)
  {
    hide Disjoint, Advances, OnlyOpen, Current;
    CurrentAdvances(sessions, b, last);
    var (current, open) := Current(sessions, b);
    if b.flags * PROGRESS_FLAGS != {} && open.None? {
      StartAdvances(sessions, current, last, b.height, Session(b.hash, b.timestamp, None, Open, b.flags));
    } else if open.Some? && open.value in current {
      FlagAdvances(sessions, current, open, last, b.height, open.value, current[open.value].flags + b.flags * RELEVANT_FLAGS);
    }
  }

  lemma LeftAdvances(before: Sessions, sessions: Sessions, start: Option<nat>, b: Block, last: int)
    requires Advances(before, sessions, start, last, b.height) && OnlyOpen(sessions, start) && last < b.height
    requires start.None? ==> b.height !in sessions
    ensures var (left, session) := Left(sessions, start, b);
            Advances(before, left, session, last, b.height)
  {
    hide Disjoint, Advances, OnlyOpen;
    if VALIDATION_FINISHED in b.flags {
      var end := End(b.height, b.hash, b.timestamp);
      if start.None? {
        var row := Session(b.hash, b.timestamp, None, Open, b.flags);
        StartAdvances(before, sessions, last, b.height, row);
        CloseAdvances(before, sessions[b.height := row], b.height, last, b.height, end, b.flags + b.flags);
      } else if start.value in sessions {
        CloseAdvances(before, sessions, start.value, last, b.height, end, sessions[start.value].flags + b.flags);
      }
    }
  }

  lemma RecordAdvances(l: Ledger, b: Block, last: int)
    requires Disjoint(l.sessions, last) && Attributed(l.sessions, l.events, last) && last < b.height
    requires Record(l, b).Some?
    ensures var next := Record(l, b).value;
            Disjoint(next.sessions, b.height) && Attributed(next.sessions, next.events, b.height)
  {
    hide Entered, Left, Disjoint, Attributed, Advances, OnlyOpen, WithEvents;
    if b.flags * RELEVANT_FLAGS != {} {
      EnteredAdvances(l.sessions, b, last);
      var (entered, start) := Entered(l.sessions, b);
      LeftAdvances(l.sessions, entered, start, b, last);
      var (left, session) := Left(entered, start, b);
      EventsAdvance(l.sessions, left, l.events, b, session, last);
      AdvancesIsDisjoint(l.sessions, left, session, last, b.height);
    } else {
      LaterHeight(l, last, b.height);
    }
  }

  lemma AdvancesIsDisjoint(before: Sessions, after: Sessions, start: Option<nat>, last: int, height: nat)
    requires Advances(before, after, start, last, height)
    ensures Disjoint(after, height)
  {
  }

  /** A block without relevant flags changes nothing but the height reached. */
  lemma LaterHeight(l: Ledger, last: int, height: nat)
    requires Disjoint(l.sessions, last) && Attributed(l.sessions, l.events, last) && last < height
    ensures Disjoint(l.sessions, height) && Attributed(l.sessions, l.events, height)
  {
  }

  lemma EventsAdvance(before: Sessions, after: Sessions, events: Events, b: Block, session: Option<nat>, last: int)
    requires Advances(before, after, session, last, b.height) && Attributed(before, events, last) && last < b.height
    ensures Attributed(after, WithEvents(events, b, b.flags * RELEVANT_FLAGS, session), b.height)
  {
    hide Disjoint;
    var all := WithEvents(events, b, b.flags * RELEVANT_FLAGS, session);
    forall key | key in all
      ensures key.0 <= b.height
      ensures all[key].session.Some? ==> all[key].session.value in after && Contains(after, all[key].session.value, key.0)
      ensures all[key].session.None? ==> forall s | s in after :: !Contains(after, s, key.0)
    {
      if key in events {
        assert all[key] == events[key] && key.0 <= last;
        forall s | s in after ensures Contains(after, s, key.0) ==> s in before && Contains(before, s, key.0) {
          if s !in before {
            assert s > last;
          }
        }
      } else {
        assert key.0 == b.height;
      }
    }
  }

  ghost predicate Increasing(blocks: seq<Block>) {
    forall i, j | 0 <= i < j < |blocks| :: blocks[i].height < blocks[j].height
  }

  /** The height of the last block scanned, below all heights when there is none. */
  function LastScanned(blocks: seq<Block>): int {
    if blocks == [] then -1 else blocks[|blocks| - 1].height
  }

  lemma {:induction false} NothingAbove(blocks: seq<Block>)
    requires Increasing(blocks)
    ensures forall h | h in Run(EMPTY, blocks).blocks :: h <= LastScanned(blocks)
    decreases |blocks|
  {
    hide RecordFlags;
    if blocks != [] {
      var front := blocks[..|blocks| - 1];
      NothingAbove(front);
      BlocksTable(Run(EMPTY, front), blocks[|blocks| - 1]);
    }
  }

  lemma BlocksTable(l: Ledger, b: Block)
    ensures Record(l, b).Some? ==> Record(l, b).value.blocks == l.blocks[b.height := b.hash]
  {
    hide Entered, Left;
  }

  /** Over every run with strictly increasing heights the sessions are disjoint ordered intervals with only
      the last possibly open, and every event is attributed to the session that contains its block. */
  lemma {:induction false} SessionsAreDisjoint(blocks: seq<Block>)
    requires Increasing(blocks)
    ensures var l := Run(EMPTY, blocks);
            Disjoint(l.sessions, LastScanned(blocks)) && Attributed(l.sessions, l.events, LastScanned(blocks))
    decreases |blocks|
  {
    hide Record;
    if blocks != [] {
      var front, b := blocks[..|blocks| - 1], blocks[|blocks| - 1];
      SessionsAreDisjoint(front);
      NothingAbove(front);
      NotRefused(Run(EMPTY, front), b);
      RecordAdvances(Run(EMPTY, front), b, LastScanned(front));
    }
  }

  lemma NotRefused(l: Ledger, b: Block)
    requires b.height !in l.blocks
    ensures Record(l, b).Some?
  {
  }

  // ------------------------------------------------------------- flags and events

  /** Some event of this flag names the session. */
  ghost predicate Named(events: Events, start: nat, flag: string) {
    exists h: nat :: (h, flag) in events && events[(h, flag)].session == Some(start)
  }

  /** The relevant flags of a session are those of the events that name it. */
  ghost predicate FlagsMatch(sessions: Sessions, events: Events) {
    forall s, flag | s in sessions && flag in RELEVANT_FLAGS :: flag in sessions[s].flags <==> Named(events, s, flag)
  }

  /** What a block at a new height does to the flags: it adds its own to its session, and leaves the others alone. */
  lemma FlagsOfBlock(sessions: Sessions, b: Block, s: nat, flag: string)
    requires b.height !in sessions && flag in RELEVANT_FLAGS
    ensures var (entered, start) := Entered(sessions, b);
            var (left, session) := Left(entered, start, b);
            && (s in left ==>
                  && (s in sessions || (s == b.height && session == Some(s)))
                  && (flag in left[s].flags <==> (s in sessions && flag in sessions[s].flags) || (session == Some(s) && flag in b.flags)))
  {
    hide RELEVANT_FLAGS, PROGRESS_FLAGS;
  }

  lemma NamedMore(events: Events, b: Block, flags: set<string>, session: Option<nat>, s: nat, flag: string)
    requires forall key | key in events :: key.0 != b.height
    ensures Named(WithEvents(events, b, flags, session), s, flag)
       <==> Named(events, s, flag) || (flag in flags && session == Some(s))
  {
    var more := WithEvents(events, b, flags, session);
    if flag in flags {
      assert (b.height, flag) in more;
    }
    if h: nat :| (h, flag) in events && events[(h, flag)].session == Some(s) {
      assert (h, flag) in more && more[(h, flag)].session == Some(s);
    }
    if h: nat :| (h, flag) in more && more[(h, flag)].session == Some(s) {
      assert (h, flag) in events || h == b.height;
    }
  }

  lemma FlagsStep(l: Ledger, b: Block, last: int)
    requires Disjoint(l.sessions, last) && Attributed(l.sessions, l.events, last) && last < b.height
    requires FlagsMatch(l.sessions, l.events)
    ensures FlagsMatch(RecordFlags(l, b).sessions, RecordFlags(l, b).events)
  {
    hide RELEVANT_FLAGS, Entered, Left, WithEvents, Named;
    var relevant := b.flags * RELEVANT_FLAGS;
    if relevant != {} {
      var (entered, start) := Entered(l.sessions, b);
      var (left, session) := Left(entered, start, b);
      forall s, flag | s in left && flag in RELEVANT_FLAGS
        ensures flag in left[s].flags <==> Named(WithEvents(l.events, b, relevant, session), s, flag)
      {
        FlagsOfBlock(l.sessions, b, s, flag);
        NamedMore(l.events, b, relevant, session, s, flag);
        NewIsNotNamed(l, last, s, flag);
      }
    }
  }

  lemma NewIsNotNamed(l: Ledger, last: int, s: nat, flag: string)
    requires Attributed(l.sessions, l.events, last)
    ensures s !in l.sessions ==> !Named(l.events, s, flag)
  {
  }

  /** Over every run with strictly increasing heights the relevant flags of a session are exactly the flags of the
      events that name it: the two tables tell the same story. */
  lemma {:induction false} FlagsMatchEvents(blocks: seq<Block>)
    requires Increasing(blocks)
    ensures FlagsMatch(Run(EMPTY, blocks).sessions, Run(EMPTY, blocks).events)
    decreases |blocks|
  {
    hide FlagsMatch, RecordFlags;
    if blocks == [] {
      NoFlags();
    } else {
      var front, b := blocks[..|blocks| - 1], blocks[|blocks| - 1];
      FlagsMatchEvents(front);
      SessionsAreDisjoint(front);
      NothingAbove(front);
      var l := Run(EMPTY, front);
      NotRefused(l, b);
      FlagsStep(l.(blocks := l.blocks[b.height := b.hash]), b, LastScanned(front));
    }
  }

  lemma NoFlags()
    ensures FlagsMatch(EMPTY.sessions, EMPTY.events)
  {
  }

  /** Over every run the events are exactly the relevant flags of the blocks that were not refused, each once. */
  lemma {:induction false} EventsAreScanned(blocks: seq<Block>, h: nat, flag: string)
    ensures (h, flag) in Run(EMPTY, blocks).events <==>
              exists i :: 0 <= i < |blocks| && blocks[i].height == h && flag in blocks[i].flags * RELEVANT_FLAGS
                          && Record(Run(EMPTY, blocks[..i]), blocks[i]).Some?
    decreases |blocks|
  {
    hide RELEVANT_FLAGS, Entered, Left;
    if blocks != [] {
      var front, b := blocks[..|blocks| - 1], blocks[|blocks| - 1];
      EventsAreScanned(front, h, flag);
      if Record(Run(EMPTY, front), b).Some? {
        EventsOfBlock(Run(EMPTY, front), b, h, flag);
      }
      hide Record;
      assert forall i | 0 <= i <= |front| :: front[..i] == blocks[..i];
      assert blocks[..|front|] == front;
      if i :| 0 <= i < |front| && front[i].height == h && flag in front[i].flags * RELEVANT_FLAGS
              && Record(Run(EMPTY, front[..i]), front[i]).Some? {
        assert blocks[i] == front[i];
        assert Record(Run(EMPTY, blocks[..i]), blocks[i]).Some?;
      }
    }
  }

  lemma EventsOfBlock(l: Ledger, b: Block, h: nat, flag: string)
    requires Record(l, b).Some?
    ensures (h, flag) in Record(l, b).value.events <==> (h, flag) in l.events || (b.height == h && flag in b.flags * RELEVANT_FLAGS)
  {
    hide RELEVANT_FLAGS, Entered, Left;
  }

  // ---------------------------------------------------------------- the recorder

  class SessionLedger {
    var blocks: map<nat, string>
    var sessions: Sessions
    var events: Events
    var lastHeight: nat
    var lastHash: string

    ghost function View(): Ledger
      reads this
    {
      Ledger(blocks, sessions, events, lastHeight, lastHash)
    }

    constructor ()
      ensures View() == EMPTY
    {
      blocks, sessions, events, lastHeight, lastHash := map[], map[], map[], 0, "";
    }

    method StartSession(b: Block) returns (start: nat)
      modifies this`sessions
      ensures sessions == Started(old(sessions), b) && start == b.height
      ensures start in sessions && sessions[start].status == Open && sessions[start].startHash == b.hash
      ensures sessions[start].flags == b.flags && sessions[start].end == if start in old(sessions) then old(sessions)[start].end else None
      ensures SameRowsBut(old(sessions), sessions, start)
    {
      var end := if b.height in sessions then sessions[b.height].end else None;
      sessions := sessions[b.height := Session(b.hash, b.timestamp, end, Open, b.flags)];
      start := b.height;
    }

    method CloseSession(start: nat, b: Block)
      modifies this`sessions
      ensures sessions == ClosedAt(old(sessions), start, b) && sessions.Keys == old(sessions).Keys
      ensures start in sessions ==> sessions[start].status == Closed && sessions[start].end == Some(End(b.height, b.hash, b.timestamp))
      ensures start in sessions ==> old(sessions)[start].flags + b.flags <= sessions[start].flags
      ensures SameRowsBut(old(sessions), sessions, start)
    {
      if start in sessions {
        var row := sessions[start];
        row := row.(end := Some(End(b.height, b.hash, b.timestamp)), status := Closed, flags := row.flags + b.flags);
        sessions := sessions[start := row];
      }
    }

    method AbandonOpenSession(b: Block)
      modifies this`sessions
      ensures sessions == AbandonedAt(old(sessions), b) && sessions.Keys == old(sessions).Keys
      ensures OneOpen(old(sessions)) ==> OpenStarts(sessions) == {}
      ensures forall s | s in sessions && old(sessions)[s].status != Open :: sessions[s] == old(sessions)[s]
      ensures forall s | s in sessions && sessions[s] != old(sessions)[s] :: sessions[s].status == Abandoned && sessions[s].end.Some?
    {
      hide OpenSession;
      var open := OpenSession(sessions);
      if open.None? {
        return;
      }
      var end := End(if b.height > 0 then b.height - 1 else 0, "", b.timestamp);
      assert forall s | s in sessions && sessions[s].status == Open :: s in OpenStarts(sessions);
      sessions := sessions[open.value := sessions[open.value].(end := Some(end), status := Abandoned)];
    }

    method RecordSessionFlags(b: Block)
      modifies this`sessions, this`events
      ensures View() == RecordFlags(old(View()), b)
    {
      hide OpenSession, SameRowsBut, OneOpen, OpenStarts;
      var relevant := b.flags * RELEVANT_FLAGS;
      if relevant == {} {
        return;
      }
      var open := OpenSession(sessions);
      var start := open;
      if FLIP_LOTTERY in b.flags && open.Some? && open.value != b.height {
        AbandonOpenSession(b);
        open, start := None, None;
      }
      if b.flags * PROGRESS_FLAGS != {} && open.None? {
        var height := StartSession(b);
        start := Some(height);
      } else if open.Some? && open.value in sessions {
        var row := sessions[open.value];
        sessions := sessions[open.value := row.(flags := row.flags + relevant)];
      }
      assert (sessions, start) == Entered(old(sessions), b);
      if VALIDATION_FINISHED in b.flags {
        if start.None? {
          var height := StartSession(b);
          start := Some(height);
        }
        CloseSession(start.value, b);
      }
      AddEvents(b, relevant, start);
    }

    method AddEvents(b: Block, relevant: set<string>, start: Option<nat>)
      modifies this`events
      ensures events == WithEvents(old(events), b, relevant, start)
    {
      var left := relevant;
      while left != {}
        invariant left <= relevant
        invariant events == WithEvents(old(events), b, relevant - left, start)
        decreases left
      {
        var flag :| flag in left;
        if (b.height, flag) !in events {
          events := events[(b.height, flag) := Event(b.hash, b.timestamp, start)];
        }
        left := left - {flag};
      }
    }

    method RecordBlock(b: Block) returns (ok: bool)
      modifies this
      ensures ok == Record(old(View()), b).Some?
      ensures View() == if ok then Record(old(View()), b).value else old(View())
    {
      hide RecordFlags;
      if b.height in blocks && blocks[b.height] != b.hash {
        return false;
      }
      blocks := blocks[b.height := b.hash];
      RecordSessionFlags(b);
      FlagsKeepHead(old(View()).(blocks := blocks), b);
      if b.height >= lastHeight {
        lastHeight, lastHash := b.height, b.hash;
      }
      ok := true;
    }
  }

  lemma FlagsKeepHead(l: Ledger, b: Block)
    ensures RecordFlags(l, b).lastHeight == l.lastHeight && RecordFlags(l, b).blocks == l.blocks
  {
    hide Entered, Left;
  }
}
