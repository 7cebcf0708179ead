/**
 Exact reward events: the parsed items of an import, the ledger rows made from them,
 and the ids that key those rows.

 The source hashes a list of strings into an id. Here an id is that list, kept apart
 by constructor and fields: hashing is taken to be collision-free.
 */
module RewardRows {
  import opened ByteStrings

  datatype Direction = Credit | Debit

  datatype ReplayKind = Validation | Proposer | FinalCommittee | Invitation | Invitee | ContractOracle | OtherReward

  /** An integer field of a JSON item: missing, not an integer, or an integer. */
  datatype Field = Absent | Garbage | Number(number: int)

  /** What a row carries beside the columns its id covers. */
  datatype Extras = Extras(counterparty: string, eventEpoch: Field, rewardAge: Field, maturity: Field)

  /** A parsed and normalized item of a reward export. */
  datatype RawEvent = RawEvent(
    address: string,
    epoch: nat,
    height: nat,
    blockHash: string,
    kind: ReplayKind,
    amount: nat,
    balance: nat,
    stake: nat,
    direction: Direction,
    locked: nat,
    txHash: string,
    liabilityTxHash: string,
    extras: Extras)

  /** The list a row's id is hashed from. Rows of the live indexer have ids of another shape. */
  datatype EventId =
    | ExactId(source: string, epoch: nat, height: nat, blockHash: string, address: string, kind: ReplayKind,
              amount: int, balance: int, stake: int, txHash: string, tail: Option<Tail>)
    | LiveId(text: string)

  datatype Tail = Tail(direction: Direction, locked: int, liabilityTxHash: string)

  datatype Row = Row(
    id: EventId,
    address: string,
    epoch: nat,
    height: nat,
    blockHash: string,
    kind: ReplayKind,
    direction: Direction,
    amount: int,
    balanceDelta: int,
    stakeDelta: int,
    lockedDelta: int,
    source: string,
    exact: bool,
    txHash: string,
    liabilityTxHash: string,
    extras: Extras)

  function Sign(d: Direction): int {
    if d == Credit then 1 else -1
  }

  function IdOf(source: string, e: RawEvent): EventId {
    var sign := Sign(e.direction);
    ExactId(
      source, e.epoch, e.height, e.blockHash, e.address, e.kind,
      sign * e.amount, sign * e.balance, sign * e.stake, e.txHash,
      if e.direction != Credit || e.liabilityTxHash != "" || e.locked != 0
      then Some(Tail(e.direction, sign * e.locked, e.liabilityTxHash)) else None)
  }

  /** `statscollector_replay_event_to_ledger_event`, after parsing. */
  function ToRow(source: string, e: RawEvent): (r: Row)
    ensures r.exact && r.source == source && r.epoch == e.epoch
  {
    var sign := Sign(e.direction);
    Row(IdOf(source, e), e.address, e.epoch, e.height, e.blockHash, e.kind, e.direction,
        sign * e.amount, sign * e.balance, sign * e.stake, sign * e.locked,
        source, true, e.txHash, e.liabilityTxHash, e.extras)
  }

  /** The id covers every column but the extras: rows with one id differ in nothing else. */
  lemma IdCoversColumns(s: string, e: RawEvent, t: string, f: RawEvent)
    requires IdOf(s, e) == IdOf(t, f)
    ensures ToRow(s, e).(extras := f.extras) == ToRow(t, f)
  {
    if IdOf(s, e).tail.Some? {
      assert e.direction == f.direction && e.liabilityTxHash == f.liabilityTxHash;
    } else {
      assert e.direction == Credit && f.direction == Credit;
      assert e.locked == 0 && f.locked == 0;
    }
  }

  /** The event a row was made from. */
  function EventOf(r: Row): RawEvent {
    RawEvent(r.address, r.epoch, r.height, r.blockHash, r.kind, Magnitude(r.amount), Magnitude(r.balanceDelta),
             Magnitude(r.stakeDelta), r.direction, Magnitude(r.lockedDelta), r.txHash, r.liabilityTxHash, r.extras)
  }

  function Magnitude(n: int): nat {
    if n >= 0 then n else -n
  }

  /** A row keeps its event: credits with nonnegative amounts, debits with nonpositive ones. */
  lemma RowKeepsEvent(source: string, e: RawEvent)
    ensures var r := ToRow(source, e);
            && EventOf(r) == e && r.id == IdOf(source, e)
            && (e.direction == Credit ==> r.amount >= 0 && r.balanceDelta >= 0 && r.stakeDelta >= 0 && r.lockedDelta >= 0)
            && (e.direction == Debit ==> r.amount <= 0 && r.balanceDelta <= 0 && r.stakeDelta <= 0 && r.lockedDelta <= 0)
  {
  }

  // ------------------------------------------------------------------ source ranks

  datatype Registration = Registration(source: string, priority: int)

  function Codes(s: string): seq<int> {
    seq(|s|, i requires 0 <= i < |s| => s[i] as int)
  }

  lemma CodesInjective(s: string, t: string)
    requires Codes(s) == Codes(t)
    ensures s == t
  {
    assert |s| == |Codes(s)| && |t| == |Codes(t)|;
    forall i | 0 <= i < |s| ensures s[i] == t[i] {
      assert Codes(s)[i] == Codes(t)[i];
    }
  }

  /** Python's order on (priority, source) pairs. */
  predicate RankLess(a: Registration, b: Registration) {
    a.priority < b.priority || (a.priority == b.priority && LexLess(Codes(a.source), Codes(b.source)))
  }

  lemma RankTotal(a: Registration, b: Registration)
    ensures RankLess(a, b) || a == b || RankLess(b, a)
    ensures !(RankLess(a, b) && RankLess(b, a)) && !RankLess(a, a)
  {
    hide Codes, LexLess;
    LexTrichotomy(Codes(a.source), Codes(b.source));
    if Codes(a.source) == Codes(b.source) {
      CodesInjective(a.source, b.source);
    }
  }

  lemma RankTransitive(a: Registration, b: Registration, c: Registration)
    requires RankLess(a, b) && RankLess(b, c)
    ensures RankLess(a, c)
  {
    hide Codes, LexLess;
    if a.priority == b.priority == c.priority {
      LexTransitive(Codes(a.source), Codes(b.source), Codes(c.source));
    }
  }

  const STATS_COLLECTOR := "idena_stats_collector"
  const OFFICIAL_API := "idena_public_api"

  /** `inferred_exact_source_priority`. */
  function InferredPriority(source: string): int {
    if source == STATS_COLLECTOR || STATS_COLLECTOR + ":" <= source then 300
    else if source == OFFICIAL_API || OFFICIAL_API + ":" <= source then 200
    else 100
  }
}
