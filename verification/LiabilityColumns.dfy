/**
 The liabilities table after a rebuild, column by column, from the rows of the ledger
 alone (`RebuiltColumns`, `TableFromLedger`): the amounts are sums over the signed
 amounts of an invitation, the other columns are the greatest maturity, epoch and height,
 the first inviter named and the last direction.
 */
module LiabilityColumns {
  import opened ByteStrings
  import opened RewardRows
  import opened Liabilities
  import opened RewardImports
  import opened Listings
  import opened RewardTables

  // ------------------------------------------------------------------- one row

  predicate Bad(f: Field, minimum: int) {
    f.Garbage? || (f.Number? && f.number < minimum)
  }

  /** The row belongs to an invitation, and its epoch, age or maturity cannot be read. */
  predicate Unreadable(r: Row) {
    && r.liabilityTxHash != ""
    && (Bad(r.extras.eventEpoch, 0) || Bad(r.extras.rewardAge, 0) || Bad(r.extras.maturity, r.epoch))
  }

  lemma MalformedIff(r: Row)
    ensures Parse(r).Malformed? <==> Unreadable(r)
  {
  }

  /** What a row that can be read counts for: the epoch and maturity it names or, without a maturity, the end of the
      ten epochs of an invitation, less its age; and its locked, staked or plain amount, the first that is not zero. */
  ghost predicate Reads(r: Row, e: Entry) {
    && e.key == Key(r.address, r.liabilityTxHash)
    && (match r.extras.eventEpoch case Number(n) => e.eventEpoch == n case _ => e.eventEpoch == r.epoch)
    && (match r.extras.maturity
        case Number(n) => e.maturity == n
        case _ => match r.extras.rewardAge
                  case Number(age) => e.maturity == if age < 10 then r.epoch + 10 - age else r.epoch
                  case _ => e.maturity == r.epoch + 10)
    && (r.lockedDelta != 0 ==> e.amount == r.lockedDelta || e.amount == -r.lockedDelta)
    && (r.lockedDelta == 0 && r.stakeDelta != 0 ==> e.amount == r.stakeDelta || e.amount == -r.stakeDelta)
    && (r.lockedDelta == 0 && r.stakeDelta == 0 ==> e.amount == r.amount || e.amount == -r.amount)
  }

  lemma CountsIff(r: Row, e: Entry)
    ensures Parse(r) == Counts(e) <==> r.liabilityTxHash != "" && !Unreadable(r) && Reads(r, e)
  {
  }

  // ------------------------------------------------------- the postings of a key

  /** The rows that can be read, belong to the invitation and have an amount. */
  ghost function PostingsIn(rows: seq<Row>, key: Key): seq<Posting> {
    if rows == [] then []
    else
      var before, last := PostingsIn(rows[..|rows| - 1], key), rows[|rows| - 1];
      if exists e :: last.liabilityTxHash != "" && !Unreadable(last) && Reads(last, e) && e.key == key && e.amount > 0
      then
        var e :| last.liabilityTxHash != "" && !Unreadable(last) && Reads(last, e) && e.key == key && e.amount > 0;
        before + [Posting(last, e)]
      else before
  }

  lemma {:induction false} PostingsAre(rows: seq<Row>, key: Key)
    ensures Postings(rows, key) == PostingsIn(rows, key)
    decreases |rows|
  {
    hide Parse, Unreadable, Reads;
    if rows != [] {
      var last := rows[|rows| - 1];
      PostingsAre(rows[..|rows| - 1], key);
      forall e ensures Parse(last) == Counts(e) <==> last.liabilityTxHash != "" && !Unreadable(last) && Reads(last, e) {
        CountsIff(last, e);
      }
    }
  }

  /** The amounts of the postings, credits positive and debits negative. */
  ghost function Amounts(ps: seq<Posting>): seq<int> {
    seq(|ps|, i requires 0 <= i < |ps| =>
      if ps[i].row.direction == Credit then ps[i].entry.amount else -(ps[i].entry.amount as int))
  }

  lemma {:induction false} SignedAre(rows: seq<Row>, key: Key)
    ensures Signed(rows, key) == Amounts(Postings(rows, key))
    decreases |rows|
  {
    hide Parse;
    if rows != [] {
      var front, last := rows[..|rows| - 1], rows[|rows| - 1];
      SignedAre(front, key);
      var parsed := Parse(last);
      if parsed.Counts? && parsed.entry.key == key && parsed.entry.amount != 0 {
        AmountsSnoc(Postings(front, key), Posting(last, parsed.entry));
      }
    }
  }

  lemma AmountsSnoc(ps: seq<Posting>, p: Posting)
    ensures Amounts(ps + [p]) == Amounts(ps) + [Sign(p.row.direction) * p.entry.amount]
  {
  }

  // -------------------------------------------------------------------- the table

  /** What is locked when the postings are done: their sum, less the least sum any number of them from the first has. */
  ghost function LockedNow(ps: seq<Posting>): int {
    Sum(Amounts(ps)) - LeastPrefix(Amounts(ps))
  }

  /** An exact row for these postings, where `epoch` is the greatest epoch seen. */
  ghost predicate Tells(row: Stored, ps: seq<Posting>, epoch: int) {
    && ps != [] && row.exact && row.inviter == Inviter(ps)
    && row.maturity.Some?
    && (forall p | p in ps ::
          p.entry.maturity <= row.maturity.value && p.entry.eventEpoch <= row.lastSeenEpoch && p.row.height <= row.lastHeight)
    && (exists p :: p in ps && p.entry.maturity == row.maturity.value)
    && (exists p :: p in ps && p.entry.eventEpoch == row.lastSeenEpoch)
    && (exists p :: p in ps && p.row.height == row.lastHeight)
    && var matured := LockedNow(ps) > 0 && row.maturity.value <= epoch;
       && row.current == (if row.maturity.value <= epoch then 0 else LockedNow(ps))
       && row.burned == Credits(Amounts(ps)) - LockedNow(ps)
       && row.status == (if matured && row.burned == 0 then Matured
                         else if matured then PartiallyBurnedThenMatured
                         else if ps[|ps| - 1].row.direction == Credit then Open
                         else if LockedNow(ps) == 0 then Burned
                         else PartiallyBurned)
  }

  /** One key of the table before and after: rows without postings stay if they were inferred and vanish if they were
      exact; with postings there is an exact row, which takes the original amount and the first epoch of an inferred
      one, and otherwise has the sum of the credits and the last epoch there. */
  ghost predicate KeyTells(before: map<Key, Stored>, after: map<Key, Stored>, key: Key, ps: seq<Posting>, epoch: int) {
    var inferred := key in before && !before[key].exact;
    && (key in after <==> ps != [] || inferred)
    && (ps == [] && inferred ==> after[key] == before[key])
    && (ps != [] ==>
          && Tells(after[key], ps, epoch)
          && after[key].original == (if inferred then before[key].original else Credits(Amounts(ps)))
          && after[key].firstSeenEpoch == (if inferred then before[key].firstSeenEpoch else after[key].lastSeenEpoch))
  }

  /** The greatest of `start` and the epochs the rows of invitations name. */
  ghost predicate GreatestEpoch(rows: seq<Row>, start: int, epoch: int) {
    && start <= epoch && (forall r, e | r in rows && r.liabilityTxHash != "" && Reads(r, e) :: e.eventEpoch <= epoch)
    && (epoch == start || exists r, e :: r in rows && r.liabilityTxHash != "" && Reads(r, e) && e.eventEpoch == epoch)
  }

  lemma SweptTells(s: Liability, ps: seq<Posting>, epoch: int)
    requires Balanced(s, Amounts(ps)) && Describes(s, ps)
    ensures Tells(StoredOf(Swept(s, epoch)), ps, epoch)
  {
    hide Sum, LeastPrefix, Credits, Inviter, Amounts;
  }

  /** Every column of the table after a rebuild, from the rows it was rebuilt from and the table before. */
  lemma RebuiltColumns(before: map<Key, Stored>, rows: seq<Row>, start: int, key: Key)
    requires FoldRows(rows, start).Books?
    ensures var folded := FoldRows(rows, start);
            && GreatestEpoch(rows, start, folded.maxEpoch)
            && KeyTells(before, Refreshed(before, folded.book, folded.maxEpoch), key, PostingsIn(rows, key), folded.maxEpoch)
  {
    hide FoldRows, Balanced, Describes, Tells, Signed, Postings, PostingsIn, Swept, GreatestEpoch;
    var folded := FoldRows(rows, start);
    FoldIsBalanced(rows, start);
    FoldDescribes(rows, start);
    PostingsAre(rows, key);
    SignedAre(rows, key);
    EpochIsGreatest(rows, start);
    if key in folded.book {
      var s := folded.book[key];
      SweptTells(s, PostingsIn(rows, key), folded.maxEpoch);
      KeptFirst(before, folded.book, folded.maxEpoch, key);
      OriginalIsCredits(s, PostingsIn(rows, key), folded.maxEpoch);
      TellsAnyOriginal(StoredOf(Swept(s, folded.maxEpoch)), Refreshed(before, folded.book, folded.maxEpoch)[key],
                       PostingsIn(rows, key), folded.maxEpoch);
    }
  }

  lemma OriginalIsCredits(s: Liability, ps: seq<Posting>, epoch: int)
    requires Balanced(s, Amounts(ps))
    ensures var row := StoredOf(Swept(s, epoch));
            row.original == Credits(Amounts(ps)) && row.firstSeenEpoch == row.lastSeenEpoch
  {
    hide Sum, LeastPrefix, Credits, Amounts;
  }

  lemma KeptFirst(before: map<Key, Stored>, book: Book, epoch: int, key: Key)
    requires key in book
    ensures key in Refreshed(before, book, epoch)
    ensures var row, rebuilt := Refreshed(before, book, epoch)[key], StoredOf(Swept(book[key], epoch));
            row == if key in before && !before[key].exact
                   then rebuilt.(original := before[key].original, firstSeenEpoch := before[key].firstSeenEpoch) else rebuilt
  {
    hide Swept, StoredOf;
  }

  /** The original amount and the first epoch are not among the columns `Tells` speaks of. */
  lemma TellsAnyOriginal(row: Stored, other: Stored, ps: seq<Posting>, epoch: int)
    requires Tells(row, ps, epoch) && row.(original := other.original, firstSeenEpoch := other.firstSeenEpoch) == other
    ensures Tells(other, ps, epoch)
  {
    hide Inviter, LockedNow, Amounts, Credits;
  }

  lemma EpochIsGreatest(rows: seq<Row>, start: int)
    requires FoldRows(rows, start).Books?
    ensures GreatestEpoch(rows, start, FoldRows(rows, start).maxEpoch)
  {
    hide FoldRows, Parse, Reads, Unreadable;
    FoldMaxEpoch(rows, start);
    AbortedIffMalformed(rows, start);
    forall r, e | r in rows && r.liabilityTxHash != "" ensures Parse(r) == Counts(e) <==> Reads(r, e) {
      CountsIff(r, e);
      MalformedIff(r);
      var i :| 0 <= i < |rows| && rows[i] == r;
      assert !Parse(rows[i]).Malformed?;
    }
    forall r | r in rows && Parse(r).Counts? ensures r.liabilityTxHash != "" && Reads(r, Parse(r).entry) {
      CountsIff(r, Parse(r).entry);
    }
  }

  // ------------------------------------------------------------------- the ledger

  /** The rows of invitees whose epoch belongs to their source, each once, by height and then id. */
  ghost predicate InviteesInOrder(l: Ledger, idOrder: Order<EventId>, listed: seq<EventId>, rows: seq<Row>) {
    && |rows| == |listed| && (forall i | 0 <= i < |listed| :: listed[i] in l.rows && rows[i] == l.rows[listed[i]])
    && (forall id :: id in listed <==>
          && id in l.rows && l.rows[id].exact && l.rows[id].kind == Invitee
          && l.rows[id].epoch in l.registry && l.registry[l.rows[id].epoch].source == l.rows[id].source)
    && forall i, j | 0 <= i < j < |listed| ::
         rows[i].height < rows[j].height || (rows[i].height == rows[j].height && idOrder(listed[i], listed[j]))
  }

  /** The greatest epoch with an exact row of the source it belongs to, or zero. */
  ghost predicate GreatestExactEpoch(l: Ledger, epoch: nat) {
    && (forall id | id in l.rows && l.rows[id].exact && l.rows[id].epoch in l.registry
                    && l.registry[l.rows[id].epoch].source == l.rows[id].source :: l.rows[id].epoch <= epoch)
    && (epoch == 0 || exists id :: id in l.rows && l.rows[id].exact && epoch in l.registry
                                   && l.rows[id].epoch == epoch && l.registry[epoch].source == l.rows[id].source)
  }

  /** The liabilities table after a rebuild from a ledger, every column of every key. */
  lemma TableFromLedger(idOrder: Order<EventId>, l: Ledger, before: map<Key, Stored>, after: map<Key, Stored>)
    requires RebuiltFrom(idOrder, l, before, after)
    ensures exists listed, rows, start: nat, epoch ::
              && InviteesInOrder(l, idOrder, listed, rows) && GreatestExactEpoch(l, start) && GreatestEpoch(rows, start, epoch)
              && forall key :: KeyTells(before, after, key, PostingsIn(rows, key), epoch)
  {
    hide IsMaxEpoch, FoldRows, Refreshed, GreatestEpoch, KeyTells, PostingsIn, GreatestExactEpoch, InviteesInOrder;
    var listed, m: nat :|
      Lists(listed, Invitees(l), ByHeight(l.rows, idOrder)) && IsMaxEpoch(l, m) && RebuiltAs(l.rows, listed, m, before, after);
    var rows := RowsAt(l.rows, listed);
    var folded := FoldRows(rows, m);
    InOrder(l, idOrder, listed);
    MaxIsGreatest(l, m);
    forall key ensures KeyTells(before, after, key, PostingsIn(rows, key), folded.maxEpoch) {
      RebuiltColumns(before, rows, m, key);
    }
    EpochIsGreatest(rows, m);
  }

  lemma InOrder(l: Ledger, idOrder: Order<EventId>, listed: seq<EventId>)
    requires Lists(listed, Invitees(l), ByHeight(l.rows, idOrder)) && forall id | id in listed :: id in l.rows
    ensures InviteesInOrder(l, idOrder, listed, RowsAt(l.rows, listed))
  {
    forall i | 0 <= i < |listed| ensures listed[i] in l.rows {
      assert listed[i] in listed;
    }
  }

  lemma MaxIsGreatest(l: Ledger, m: nat)
    requires IsMaxEpoch(l, m)
    ensures GreatestExactEpoch(l, m)
  {
  }
}
