/**
 What recording a block does to every table, spelled row by row (`RecordTells`), and what
 that means for whole runs: a height keeps the hash of the first block scanned there, only
 blocks with another hash are refused (`FirstHashStays`), the head is the greatest height
 that was scanned (`HeadIsGreatest`), and the hashes in sessions and events are those of
 the blocks they name (`HashesMatch`).
 */
module SessionRows {
  import opened ByteStrings
  import opened SessionRecorder

  // ---------------------------------------------------------------------- one block

  predicate StartsValidation(b: Block) {
    || "FlipLotteryStarted" in b.flags || "ShortSessionStarted" in b.flags
    || "LongSessionStarted" in b.flags || "AfterLongSessionStarted" in b.flags
  }

  predicate Relevant(flag: string) {
    || flag == "FlipLotteryStarted" || flag == "ShortSessionStarted" || flag == "LongSessionStarted"
    || flag == "AfterLongSessionStarted" || flag == "ValidationFinished" || flag == "IdentityUpdate"
    || flag == "OfflinePropose" || flag == "OfflineCommit" || flag == "Snapshot"
  }

  lemma RelevantIff(flag: string)
    ensures Relevant(flag) <==> flag in RELEVANT_FLAGS
  {
  }

  lemma StartsIff(b: Block)
    ensures StartsValidation(b) <==> b.flags * PROGRESS_FLAGS != {}
  {
    if f :| f in b.flags * PROGRESS_FLAGS {
    }
    if "FlipLotteryStarted" in b.flags {
      assert "FlipLotteryStarted" in b.flags * PROGRESS_FLAGS;
    } else if "ShortSessionStarted" in b.flags {
      assert "ShortSessionStarted" in b.flags * PROGRESS_FLAGS;
    } else if "LongSessionStarted" in b.flags {
      assert "LongSessionStarted" in b.flags * PROGRESS_FLAGS;
    } else if "AfterLongSessionStarted" in b.flags {
      assert "AfterLongSessionStarted" in b.flags * PROGRESS_FLAGS;
    }
  }

  predicate IsOpen(sessions: Sessions, s: nat) {
    s in sessions && sessions[s].status == Open
  }

  /** A flip lottery puts an end to a session that began at another height. */
  predicate CutsOff(sessions: Sessions, b: Block, s: nat) {
    IsOpen(sessions, s) && "FlipLotteryStarted" in b.flags && s != b.height
  }

  /** The open session goes on. */
  predicate GoesOn(sessions: Sessions, b: Block, s: nat) {
    IsOpen(sessions, s) && !CutsOff(sessions, b, s)
  }

  /** The block begins a session: none goes on, and it starts or finishes a validation. */
  ghost predicate Begins(sessions: Sessions, b: Block) {
    (forall s: nat :: !GoesOn(sessions, b, s)) && (StartsValidation(b) || "ValidationFinished" in b.flags)
  }

  /** The row of a session after the block. */
  ghost predicate SessionTells(sessions: Sessions, b: Block, s: nat, after: Sessions) {
    var finished := "ValidationFinished" in b.flags;
    if s == b.height && Begins(sessions, b) then
      && s in after && after[s].startHash == b.hash && after[s].startTimestamp == b.timestamp && after[s].flags == b.flags
      && after[s].status == (if finished then Closed else Open)
      && after[s].end == (if finished then Some(End(b.height, b.hash, b.timestamp))
                          else if s in sessions then sessions[s].end else None)
    else if s !in sessions then s !in after
    else
      && s in after && after[s].startHash == sessions[s].startHash && after[s].startTimestamp == sessions[s].startTimestamp
      && if CutsOff(sessions, b, s) then
           && after[s].status == Abandoned && after[s].flags == sessions[s].flags
           && after[s].end == Some(End(if b.height == 0 then 0 else b.height - 1, "", b.timestamp))
         else if GoesOn(sessions, b, s) && finished then
           && after[s].status == Closed && after[s].end == Some(End(b.height, b.hash, b.timestamp))
           && after[s].flags == sessions[s].flags + b.flags
         else if GoesOn(sessions, b, s) then
           && after[s].status == Open && after[s].end == sessions[s].end
           && forall flag :: flag in after[s].flags <==> flag in sessions[s].flags || (flag in b.flags && Relevant(flag))
         else after[s] == sessions[s]
  }

  /** The session the events of the block belong to. */
  ghost predicate Names(sessions: Sessions, b: Block, session: Option<nat>) {
    if Begins(sessions, b) then session == Some(b.height)
    else if session.Some? then GoesOn(sessions, b, session.value)
    else forall s: nat :: !GoesOn(sessions, b, s)
  }

  /** An event for each relevant flag of the block, unless there is one; all others stay. */
  ghost predicate EventTells(l: Ledger, b: Block, h: nat, flag: string, after: Events) {
    if (h, flag) in l.events then (h, flag) in after && after[(h, flag)] == l.events[(h, flag)]
    else
      && ((h, flag) in after <==> h == b.height && flag in b.flags && Relevant(flag))
      && ((h, flag) in after ==>
            && after[(h, flag)].blockHash == b.hash && after[(h, flag)].timestamp == b.timestamp
            && Names(l.sessions, b, after[(h, flag)].session))
  }

  lemma OpenIs(sessions: Sessions)
    requires OneOpen(sessions)
    ensures forall s: nat :: IsOpen(sessions, s) <==> OpenSession(sessions) == Some(s)
  {
    forall s: nat | IsOpen(sessions, s) ensures OpenSession(sessions) == Some(s) {
      assert s in OpenStarts(sessions);
    }
  }

  /** The sessions after the block, once it is known which one is open. */
  ghost function SessionsAfter(sessions: Sessions, b: Block): (Sessions, Option<nat>) {
    var (entered, start) := Entered(sessions, b);
    Left(entered, start, b)
  }

  lemma SessionAfter(sessions: Sessions, b: Block, s: nat)
    requires OneOpen(sessions)
    ensures SessionTells(sessions, b, s, SessionsAfter(sessions, b).0)
    ensures Names(sessions, b, SessionsAfter(sessions, b).1)
  {
    hide OpenSession, PROGRESS_FLAGS, RELEVANT_FLAGS, Relevant, OneOpen, StartsValidation;
    OpenIs(sessions);
    StartsIff(b);
    forall flag ensures Relevant(flag) <==> flag in RELEVANT_FLAGS {
      RelevantIff(flag);
    }
    assert "FlipLotteryStarted" in b.flags ==> StartsValidation(b) by { FlipStarts(b); }
    var open := OpenSession(sessions);
    if open.Some? {
      assert IsOpen(sessions, open.value);
      assert GoesOn(sessions, b, open.value) <==> !("FlipLotteryStarted" in b.flags && open.value != b.height);
    }
    assert forall s: nat | GoesOn(sessions, b, s) :: IsOpen(sessions, s);
    assert Begins(sessions, b) <==>
           (open.None? || ("FlipLotteryStarted" in b.flags && open.value != b.height))
           && (StartsValidation(b) || "ValidationFinished" in b.flags);
  }

  lemma FlipStarts(b: Block)
    ensures "FlipLotteryStarted" in b.flags ==> StartsValidation(b)
  {
  }

  /** Every table after a block, row by row: it is refused exactly when its height is recorded with another hash. */
  lemma RecordTells(l: Ledger, b: Block)
    requires OneOpen(l.sessions)
    ensures Record(l, b).None? <==> b.height in l.blocks && l.blocks[b.height] != b.hash
    ensures Record(l, b).Some? ==>
              var next := Record(l, b).value;
              && next.blocks == l.blocks[b.height := b.hash]
              && (forall s: nat :: SessionTells(l.sessions, b, s, next.sessions))
              && (forall h: nat, flag :: EventTells(l, b, h, flag, next.events))
              && (if b.height >= l.lastHeight then next.lastHeight == b.height && next.lastHash == b.hash
                  else next.lastHeight == l.lastHeight && next.lastHash == l.lastHash)
  {
    hide OpenSession, Entered, Left, OneOpen, SessionTells, Names, WithEvents, RELEVANT_FLAGS;
    if Record(l, b).Some? {
      var next := Record(l, b).value;
      RecordIs(l, b);
      forall s: nat ensures SessionTells(l.sessions, b, s, next.sessions) {
        SessionAfter(l.sessions, b, s);
      }
      SessionAfter(l.sessions, b, 0);
      forall h: nat, flag ensures EventTells(l, b, h, flag, next.events) {
        RelevantIff(flag);
        EventAfter(l.events, b, SessionsAfter(l.sessions, b).1, h, flag);
      }
    }
  }

  lemma EventAfter(events: Events, b: Block, session: Option<nat>, h: nat, flag: string)
    ensures var after := WithEvents(events, b, b.flags * RELEVANT_FLAGS, session);
            && ((h, flag) in after <==> (h, flag) in events || (h == b.height && flag in b.flags && flag in RELEVANT_FLAGS))
            && ((h, flag) in events ==> after[(h, flag)] == events[(h, flag)])
            && ((h, flag) in after && (h, flag) !in events ==> after[(h, flag)] == Event(b.hash, b.timestamp, session))
  {
    hide RELEVANT_FLAGS;
  }

  lemma RecordIs(l: Ledger, b: Block)
    requires Record(l, b).Some?
    ensures var next := Record(l, b).value;
            && next.blocks == l.blocks[b.height := b.hash] && next.sessions == SessionsAfter(l.sessions, b).0
            && next.events == WithEvents(l.events, b, b.flags * RELEVANT_FLAGS, SessionsAfter(l.sessions, b).1)
            && (if b.height >= l.lastHeight then next.lastHeight == b.height && next.lastHash == b.hash
                else next.lastHeight == l.lastHeight && next.lastHash == l.lastHash)
  {
    hide OpenSession;
    if b.flags * RELEVANT_FLAGS == {} {
      assert b.flags * PROGRESS_FLAGS == {};
      assert FLIP_LOTTERY in RELEVANT_FLAGS && VALIDATION_FINISHED in RELEVANT_FLAGS;
      NoEvents(l.events, b, SessionsAfter(l.sessions, b).1);
      var open := OpenSession(l.sessions);
      if open.Some? && open.value in l.sessions {
        assert l.sessions[open.value].flags + {} == l.sessions[open.value].flags;
      }
    }
  }

  lemma NoEvents(events: Events, b: Block, session: Option<nat>)
    ensures WithEvents(events, b, {}, session) == events
  {
  }

  // ---------------------------------------------------------------------------- runs

  /** The hash of the first of these blocks at the height. */
  ghost predicate FirstAt(blocks: seq<Block>, h: nat, hash: string) {
    exists i :: 0 <= i < |blocks| && blocks[i].height == h && blocks[i].hash == hash && forall j | 0 <= j < i :: blocks[j].height != h
  }

  /** Over every run the blocks table has the hash of the first block scanned at each height, and a block is refused
      exactly when another hash came first there. */
  lemma {:induction false} FirstHashStays(blocks: seq<Block>, h: nat, hash: string)
    ensures h in Run(EMPTY, blocks).blocks && Run(EMPTY, blocks).blocks[h] == hash <==> FirstAt(blocks, h, hash)
    ensures forall b: Block :: Record(Run(EMPTY, blocks), b).None? <==> exists other :: FirstAt(blocks, b.height, other) && other != b.hash
    decreases |blocks|
  {
    hide Record, FirstAt;
    forall k: nat, other
      ensures k in Run(EMPTY, blocks).blocks && Run(EMPTY, blocks).blocks[k] == other <==> FirstAt(blocks, k, other)
    {
      FirstHash(blocks, k, other);
    }
    var l := Run(EMPTY, blocks);
    forall b: Block
      ensures Record(l, b).None? <==> exists other :: FirstAt(blocks, b.height, other) && other != b.hash
    {
      AtMostOneOpenSession(blocks);
      RecordTells(l, b);
      if b.height in l.blocks {
        assert FirstAt(blocks, b.height, l.blocks[b.height]);
      }
    }
  }

  lemma {:induction false} FirstHash(blocks: seq<Block>, h: nat, hash: string)
    ensures h in Run(EMPTY, blocks).blocks && Run(EMPTY, blocks).blocks[h] == hash <==> FirstAt(blocks, h, hash)
    decreases |blocks|
  {
    hide Record, FirstAt;
    if blocks == [] {
      NothingFirst(h, hash);
    } else {
      var front, b := blocks[..|blocks| - 1], blocks[|blocks| - 1];
      var l := Run(EMPTY, front);
      assert blocks == front + [b];
      forall other ensures h in l.blocks && l.blocks[h] == other <==> FirstAt(front, h, other) {
        FirstHash(front, h, other);
      }
      if h in l.blocks {
        assert FirstAt(front, h, l.blocks[h]);
      }
      AtMostOneOpenSession(front);
      RecordTells(l, b);
      FirstSnoc(front, b, h, hash);
    }
  }

  lemma NothingFirst(h: nat, hash: string)
    ensures !FirstAt([], h, hash)
  {
  }

  lemma FirstSnoc(blocks: seq<Block>, b: Block, h: nat, hash: string)
    ensures FirstAt(blocks + [b], h, hash) <==>
              FirstAt(blocks, h, hash) || (b.height == h && b.hash == hash && forall other :: !FirstAt(blocks, h, other))
  {
    var all := blocks + [b];
    assert all[|blocks|] == b && forall i | 0 <= i < |blocks| :: all[i] == blocks[i];
    if FirstAt(all, h, hash) {
      var i :| 0 <= i < |all| && all[i].height == h && all[i].hash == hash && forall j | 0 <= j < i :: all[j].height != h;
      if i < |blocks| {
        assert blocks[i].height == h;
      }
    }
    if FirstAt(blocks, h, hash) {
      var i :| 0 <= i < |blocks| && blocks[i].height == h && blocks[i].hash == hash && forall j | 0 <= j < i :: blocks[j].height != h;
      assert all[i].height == h;
    }
    if b.height == h && b.hash == hash && forall other :: !FirstAt(blocks, h, other) {
      NoneAt(blocks, h);
      assert all[|blocks|].height == h;
    }
  }

  lemma {:induction false} NoneAt(blocks: seq<Block>, h: nat)
    requires forall other :: !FirstAt(blocks, h, other)
    ensures forall i | 0 <= i < |blocks| :: blocks[i].height != h
  {
    if i :| 0 <= i < |blocks| && blocks[i].height == h {
      var k := LeastAt(blocks, h, i);
      assert FirstAt(blocks, h, blocks[k].hash);
    }
  }

  lemma {:induction false} LeastAt(blocks: seq<Block>, h: nat, i: nat) returns (k: nat)
    requires i < |blocks| && blocks[i].height == h
    ensures k < |blocks| && blocks[k].height == h && forall j | 0 <= j < k :: blocks[j].height != h
    decreases i
  {
    k := i;
    if j :| 0 <= j < i && blocks[j].height == h {
      k := LeastAt(blocks, h, j);
    }
  }

  /** Over every run the head is the greatest height scanned, with the hash recorded there. */
  lemma {:induction false} HeadIsGreatest(blocks: seq<Block>)
    ensures var l := Run(EMPTY, blocks);
            && (forall h | h in l.blocks :: h <= l.lastHeight)
            && (blocks != [] ==> l.lastHeight in l.blocks && l.blocks[l.lastHeight] == l.lastHash)
            && (blocks == [] ==> l.lastHeight == 0 && l.lastHash == "")
    decreases |blocks|
  {
    hide Record;
    if blocks != [] {
      var front, b := blocks[..|blocks| - 1], blocks[|blocks| - 1];
      HeadIsGreatest(front);
      AtMostOneOpenSession(front);
      RecordTells(Run(EMPTY, front), b);
    }
  }

  /** The hashes kept with sessions and events are those of the blocks. */
  ghost predicate HashesAgree(l: Ledger) {
    && (forall s | s in l.sessions ::
          && s in l.blocks && l.blocks[s] == l.sessions[s].startHash
          && (l.sessions[s].status == Closed ==>
                && l.sessions[s].end.Some? && l.sessions[s].end.value.height in l.blocks
                && l.blocks[l.sessions[s].end.value.height] == l.sessions[s].end.value.hash))
    && (forall key | key in l.events :: key.0 in l.blocks && l.blocks[key.0] == l.events[key].blockHash)
  }

  lemma AgreeStep(l: Ledger, b: Block)
    requires OneOpen(l.sessions) && HashesAgree(l) && Record(l, b).Some?
    ensures HashesAgree(Record(l, b).value)
  {
    hide Record, OneOpen, Names, Relevant, StartsValidation, Begins, GoesOn, CutsOff;
    RecordTells(l, b);
    var next := Record(l, b).value;
    forall s | s in next.sessions
      ensures && s in next.blocks && next.blocks[s] == next.sessions[s].startHash
              && (next.sessions[s].status == Closed ==>
                    && next.sessions[s].end.Some? && next.sessions[s].end.value.height in next.blocks
                    && next.blocks[next.sessions[s].end.value.height] == next.sessions[s].end.value.hash)
    {
      assert SessionTells(l.sessions, b, s, next.sessions);
    }
    forall key | key in next.events ensures key.0 in next.blocks && next.blocks[key.0] == next.events[key].blockHash {
      assert EventTells(l, b, key.0, key.1, next.events);
      assert key == (key.0, key.1);
    }
  }

  /** Over every run, re-scans included. */
  lemma {:induction false} HashesMatch(blocks: seq<Block>)
    ensures HashesAgree(Run(EMPTY, blocks))
    decreases |blocks|
  {
    hide Record, HashesAgree;
    if blocks == [] {
      NothingAgrees();
    } else {
      var front, b := blocks[..|blocks| - 1], blocks[|blocks| - 1];
      HashesMatch(front);
      AtMostOneOpenSession(front);
      if Record(Run(EMPTY, front), b).Some? {
        AgreeStep(Run(EMPTY, front), b);
      }
    }
  }

  lemma NothingAgrees()
    ensures HashesAgree(EMPTY)
  {
  }
}
