/**
 Invitation liabilities rebuilt from exact invitee rewards: a clamped fold over the
 rows in height order, a maturity sweep, and the upsert into the liabilities table.
 */
module Liabilities {
  import opened ByteStrings
  import opened RewardRows

  const LIABILITY_WINDOW_EPOCHS: nat := 10

  datatype Status = Open | PartiallyBurned | Burned | Matured | PartiallyBurnedThenMatured | Closed

  /** A liability is keyed by invitee and invitation transaction. */
  datatype Key = Key(invitee: string, txHash: string)

  datatype Liability = Liability(
    inviter: string,
    firstSeenEpoch: nat,
    original: nat,
    current: nat,
    burned: nat,
    maturity: int,
    status: Status,
    lastSeenEpoch: int,
    lastHeight: nat)

  type Book = map<Key, Liability>

  // ------------------------------------------------------------------- one row

  /** What a row means for its liability, once its fields are parsed. */
  datatype Entry = Entry(key: Key, eventEpoch: int, maturity: int, amount: nat)

  datatype Parsed = Skip | Malformed | Counts(entry: Entry)

  function Abs(n: int): nat {
    if n >= 0 then n else -n
  }

  /** The first nonzero of the locked, staked and plain amount. */
  function AmountOf(r: Row): nat {
    if r.lockedDelta != 0 then Abs(r.lockedDelta)
    else if r.stakeDelta != 0 then Abs(r.stakeDelta)
    else Abs(r.amount)
  }

  /** An integer field with a default and a minimum. */
  function FieldOr(f: Field, default: int, minimum: int): Option<int> {
    match f
    case Absent => Some(default)
    case Garbage => None
    case Number(n) => if n < minimum then None else Some(n)
  }

  /** The part of the loop body before the liability is touched. Rows without an invitation are skipped;
      a field that does not parse aborts the rebuild. */
  function Parse(r: Row): Parsed {
    if r.liabilityTxHash == "" then Skip
    else
      var eventEpoch := FieldOr(r.extras.eventEpoch, r.epoch, 0);
      var age := FieldOr(r.extras.rewardAge, 0, 0);
      if eventEpoch.None? || age.None? then Malformed
      else
        var remaining := LIABILITY_WINDOW_EPOCHS - age.value;
        var maturity := FieldOr(r.extras.maturity, r.epoch + (if remaining > 0 then remaining else 0), r.epoch);
        if maturity.None? then Malformed
        else Counts(Entry(Key(r.address, r.liabilityTxHash), eventEpoch.value, maturity.value, AmountOf(r)))
  }

  function Max(a: int, b: int): int {
    if a >= b then a else b
  }

  /** The liability before its first event. */
  function Fresh(r: Row, e: Entry): Liability {
    Liability(r.extras.counterparty, r.epoch, 0, 0, 0, e.maturity, Open, e.eventEpoch, r.height)
  }

  function Seen(s: Liability, r: Row, e: Entry): Liability {
    s.(maturity := Max(s.maturity, e.maturity), lastSeenEpoch := Max(s.lastSeenEpoch, e.eventEpoch),
       lastHeight := if s.lastHeight >= r.height then s.lastHeight else r.height,
       inviter := if s.inviter == "" then r.extras.counterparty else s.inviter)
  }

  /** A credit locks, a debit burns what is still locked. */
  function Moved(s: Liability, direction: Direction, amount: nat): Liability {
    if direction == Credit then
      s.(original := s.original + amount, current := s.current + amount, status := Open)
    else
      var burned := if s.current <= amount then s.current else amount;
      s.(current := s.current - burned, burned := s.burned + burned,
         status := if s.current - burned == 0 then Burned else PartiallyBurned)
  }

  function Apply(book: Book, r: Row, e: Entry): Book {
    var s := if e.key in book then book[e.key] else Fresh(r, e);
    book[e.key := Moved(Seen(s, r, e), r.direction, e.amount)]
  }

  // ------------------------------------------------------------------- the fold

  /** The book and the greatest epoch after these rows; `Malformed` when the rebuild is aborted. */
  datatype Rebuilt = Aborted | Books(book: Book, maxEpoch: int)

  function FoldRow(b: Rebuilt, r: Row): Rebuilt {
    if b.Aborted? then Aborted
    else
      match Parse(r)
      case Skip => b
      case Malformed => Aborted
      case Counts(e) =>
        Books(if e.amount == 0 then b.book else Apply(b.book, r, e), Max(b.maxEpoch, e.eventEpoch))
  }

  function FoldRows(rows: seq<Row>, maxEpoch: int): Rebuilt {
    if rows == [] then Books(map[], maxEpoch) else FoldRow(FoldRows(rows[..|rows| - 1], maxEpoch), rows[|rows| - 1])
  }

  /** The loop of the source over the rows in (height, id) order. */
  method FoldLoop(rows: seq<Row>, maxEpoch: int) returns (r: Rebuilt)
    ensures r == FoldRows(rows, maxEpoch)
  {
    hide Parse, Apply;
    var liabilities: Book, epoch := map[], maxEpoch;
    for i := 0 to |rows|
      invariant FoldRows(rows[..i], maxEpoch) == Books(liabilities, epoch)
    {
      assert rows[..i + 1][..i] == rows[..i];
      var parsed := Parse(rows[i]);
      match parsed
      case Skip =>
      case Malformed =>
        AbortLasts(rows, maxEpoch, i + 1);
        return Aborted;
      case Counts(e) =>
        epoch := Max(epoch, e.eventEpoch);
        if e.amount != 0 {
          liabilities := Apply(liabilities, rows[i], e);
        }
    }
    assert rows[..|rows|] == rows;
    r := Books(liabilities, epoch);
  }

  lemma {:induction false} AbortLasts(rows: seq<Row>, maxEpoch: int, k: nat)
    requires k <= |rows| && FoldRows(rows[..k], maxEpoch).Aborted?
    ensures FoldRows(rows, maxEpoch).Aborted?
    decreases |rows|
  {
    hide FoldRow;
    if k < |rows| {
      assert rows[..|rows| - 1][..k] == rows[..k];
      AbortLasts(rows[..|rows| - 1], maxEpoch, k);
      assert FoldRow(Aborted, rows[|rows| - 1]) == Aborted by { AbortedStays(rows[|rows| - 1]); }
    } else {
      assert rows[..k] == rows;
    }
  }

  lemma AbortedStays(r: Row)
    ensures FoldRow(Aborted, r) == Aborted
  {
  }

  /** The rebuild is aborted exactly when some row that belongs to an invitation has a bad field. */
  lemma {:induction false} AbortedIffMalformed(rows: seq<Row>, maxEpoch: int)
    ensures FoldRows(rows, maxEpoch).Aborted? <==> exists i :: 0 <= i < |rows| && Parse(rows[i]).Malformed?
    decreases |rows|
  {
    hide Parse, Apply;
    if rows != [] {
      AbortedIffMalformed(rows[..|rows| - 1], maxEpoch);
    }
  }

  // ----------------------------------------------------------------- closed form

  /** The signed amounts of one liability, in row order. */
  function Signed(rows: seq<Row>, key: Key): seq<int> {
    if rows == [] then []
    else
      var before, last := Signed(rows[..|rows| - 1], key), rows[|rows| - 1];
      match Parse(last)
      case Counts(e) => if e.key == key && e.amount != 0 then before + [Sign(last.direction) * e.amount] else before
      case _ => before
  }

  function Sum(xs: seq<int>): int {
    if xs == [] then 0 else Sum(xs[..|xs| - 1]) + xs[|xs| - 1]
  }

  /** The least of the sums of the prefixes, the empty one included. */
  function LeastPrefix(xs: seq<int>): int {
    if xs == [] then 0
    else
      var before := LeastPrefix(xs[..|xs| - 1]);
      if Sum(xs) < before then Sum(xs) else before
  }

  function Credits(xs: seq<int>): nat {
    if xs == [] then 0 else Credits(xs[..|xs| - 1]) + (if xs[|xs| - 1] > 0 then xs[|xs| - 1] else 0)
  }

  /** `LeastPrefix` is attained, and no prefix goes below it. */
  lemma {:induction false} LeastPrefixIsLeast(xs: seq<int>)
    ensures exists k :: 0 <= k <= |xs| && Sum(xs[..k]) == LeastPrefix(xs)
    ensures forall k | 0 <= k <= |xs| :: LeastPrefix(xs) <= Sum(xs[..k])
    decreases |xs|
  {
    assert xs[..|xs|] == xs;
    if xs == [] {
      assert Sum(xs[..0]) == LeastPrefix(xs);
    } else {
      var front := xs[..|xs| - 1];
      LeastPrefixIsLeast(front);
      assert forall k | 0 <= k <= |front| :: xs[..k] == front[..k];
      var k :| 0 <= k <= |front| && Sum(front[..k]) == LeastPrefix(front);
      assert Sum(xs[..k]) == LeastPrefix(front);
      assert Sum(xs[..|xs|]) == Sum(xs);
    }
  }

  /** The totals of a liability with these signed amounts. */
  ghost predicate Balanced(s: Liability, xs: seq<int>) {
    && s.current == Sum(xs) - LeastPrefix(xs)
    && s.original == Credits(xs)
    && s.original == s.current + s.burned
    && (s.current > 0 ==> s.status == Open || s.status == PartiallyBurned)
  }

  lemma SnocSums(xs: seq<int>, x: int)
    ensures Sum(xs + [x]) == Sum(xs) + x
    ensures LeastPrefix(xs + [x]) == if Sum(xs) + x < LeastPrefix(xs) then Sum(xs) + x else LeastPrefix(xs)
    ensures Credits(xs + [x]) == Credits(xs) + (if x > 0 then x else 0)
  {
    assert (xs + [x])[..|xs|] == xs;
  }

  lemma MovedStaysBalanced(s: Liability, xs: seq<int>, direction: Direction, amount: nat)
    requires Balanced(s, xs) && amount > 0
    ensures Balanced(Moved(s, direction, amount), xs + [Sign(direction) * amount])
  {
    hide Sum, LeastPrefix, Credits;
    SnocSums(xs, Sign(direction) * amount);
  }

  /** The fold equals its closed form: for every liability, what is locked now is the sum of the signed
      amounts less the least prefix sum, what was ever locked is the sum of the credits, and the
      difference is what was burned. A liability is in the book exactly when it has an amount. */
  lemma {:induction false} FoldIsBalanced(rows: seq<Row>, maxEpoch: int)
    requires FoldRows(rows, maxEpoch).Books?
    ensures var book := FoldRows(rows, maxEpoch).book;
            && (forall key | key in book :: Balanced(book[key], Signed(rows, key)))
            && (forall key :: key in book <==> Signed(rows, key) != [])
    decreases |rows|
  {
    hide Parse, Balanced, Moved, Sum, LeastPrefix, Credits;
    if rows == [] {
    } else {
      var front, last := rows[..|rows| - 1], rows[|rows| - 1];
      FoldIsBalanced(front, maxEpoch);
      var before := FoldRows(front, maxEpoch).book;
      var parsed := Parse(last);
      if parsed.Counts? && parsed.entry.amount > 0 {
        var e := parsed.entry;
        var s := if e.key in before then before[e.key] else Fresh(last, e);
        assert Balanced(s, Signed(front, e.key)) by {
          if e.key !in before {
            FreshIsBalanced(last, e);
          }
        }
        SeenStaysBalanced(s, last, e, Signed(front, e.key));
        MovedStaysBalanced(Seen(s, last, e), Signed(front, e.key), last.direction, e.amount);
      }
    }
  }

  lemma FreshIsBalanced(r: Row, e: Entry)
    ensures Balanced(Fresh(r, e), [])
  {
  }

  lemma SeenStaysBalanced(s: Liability, r: Row, e: Entry, xs: seq<int>)
    requires Balanced(s, xs)
    ensures Balanced(Seen(s, r, e), xs)
  {
    hide Sum, LeastPrefix, Credits;
  }

  // ------------------------------------------------------- the other columns

  /** A row with what was parsed from it. */
  datatype Posting = Posting(row: Row, entry: Entry)

  /** The rows that move a liability, in order. */
  function Postings(rows: seq<Row>, key: Key): seq<Posting> {
    if rows == [] then []
    else
      var before, last := Postings(rows[..|rows| - 1], key), rows[|rows| - 1];
      match Parse(last)
      case Counts(e) => if e.key == key && e.amount != 0 then before + [Posting(last, e)] else before
      case _ => before
  }

  /** The first inviter that is named. */
  function Inviter(ps: seq<Posting>): string {
    if ps == [] then ""
    else if ps[0].row.extras.counterparty != "" then ps[0].row.extras.counterparty
    else Inviter(ps[1..])
  }

  /** The columns beside the amounts: the first epoch, the first inviter named, the greatest maturity, event epoch and
      height, and the status the last row leaves. */
  ghost predicate Describes(s: Liability, ps: seq<Posting>) {
    && ps != [] && s.firstSeenEpoch == ps[0].row.epoch && s.inviter == Inviter(ps)
    && (forall p | p in ps ::
          p.entry.maturity <= s.maturity && p.entry.eventEpoch <= s.lastSeenEpoch && p.row.height <= s.lastHeight)
    && (exists p :: p in ps && p.entry.maturity == s.maturity)
    && (exists p :: p in ps && p.entry.eventEpoch == s.lastSeenEpoch)
    && (exists p :: p in ps && p.row.height == s.lastHeight)
    && s.status == if ps[|ps| - 1].row.direction == Credit then Open else if s.current == 0 then Burned else PartiallyBurned
  }

  lemma {:induction false} InviterSnoc(ps: seq<Posting>, p: Posting)
    ensures Inviter(ps + [p]) == if Inviter(ps) != "" then Inviter(ps) else p.row.extras.counterparty
    decreases |ps|
  {
    if ps == [] {
      assert ps + [p] == [p] && [p][1..] == [];
    } else {
      assert (ps + [p])[1..] == ps[1..] + [p];
      InviterSnoc(ps[1..], p);
    }
  }

  lemma MovedDescribes(s: Liability, ps: seq<Posting>, r: Row, e: Entry)
    requires Describes(s, ps)
    ensures Describes(Moved(Seen(s, r, e), r.direction, e.amount), ps + [Posting(r, e)])
  {
    hide Inviter;
    var p := Posting(r, e);
    var all := ps + [p];
    InviterSnoc(ps, p);
    assert forall q :: q in all <==> q in ps || q == p;
    assert all[0] == ps[0] && all[|all| - 1] == p;
    var a :| a in ps && a.entry.maturity == s.maturity;
    var b :| b in ps && b.entry.eventEpoch == s.lastSeenEpoch;
    var c :| c in ps && c.row.height == s.lastHeight;
    assert a in all && b in all && c in all && p in all;
  }

  lemma FreshDescribes(r: Row, e: Entry)
    ensures Describes(Moved(Seen(Fresh(r, e), r, e), r.direction, e.amount), [Posting(r, e)])
  {
    var p := Posting(r, e);
    assert p in [p];
    assert [p][1..] == [];
  }

  /** The fold keeps every other column as the rows of the liability say. */
  lemma {:induction false} FoldDescribes(rows: seq<Row>, maxEpoch: int)
    requires FoldRows(rows, maxEpoch).Books?
    ensures var book := FoldRows(rows, maxEpoch).book;
            && (forall key | key in book :: Describes(book[key], Postings(rows, key)))
            && (forall key :: key in book <==> Postings(rows, key) != [])
    decreases |rows|
  {
    hide Parse, Describes, Moved, Seen, Fresh;
    if rows == [] {
    } else {
      var front, last := rows[..|rows| - 1], rows[|rows| - 1];
      FoldDescribes(front, maxEpoch);
      var before := FoldRows(front, maxEpoch).book;
      var parsed := Parse(last);
      if parsed.Counts? && parsed.entry.amount > 0 {
        var e := parsed.entry;
        if e.key in before {
          MovedDescribes(before[e.key], Postings(front, e.key), last, e);
        } else {
          assert Postings(front, e.key) + [Posting(last, e)] == [Posting(last, e)];
          FreshDescribes(last, e);
        }
      }
    }
  }

  /** The greatest epoch of the fold is the initial one or the greatest event epoch of the rows that belong to an
      invitation. */
  lemma {:induction false} FoldMaxEpoch(rows: seq<Row>, maxEpoch: int)
    requires FoldRows(rows, maxEpoch).Books?
    ensures var m := FoldRows(rows, maxEpoch).maxEpoch;
            && maxEpoch <= m && (forall r | r in rows && Parse(r).Counts? :: Parse(r).entry.eventEpoch <= m)
            && (m == maxEpoch || exists r :: r in rows && Parse(r).Counts? && Parse(r).entry.eventEpoch == m)
    decreases |rows|
  {
    hide Parse, Apply;
    if rows != [] {
      var front, last := rows[..|rows| - 1], rows[|rows| - 1];
      assert rows == front + [last];
      FoldMaxEpoch(front, maxEpoch);
      assert last in rows && forall r | r in front :: r in rows;
    }
  }

  // -------------------------------------------------------------- maturity sweep

  function Swept(s: Liability, maxEpoch: int): Liability {
    if s.current > 0 && s.maturity <= maxEpoch then
      s.(current := 0, status := if s.burned == 0 then Matured else PartiallyBurnedThenMatured)
    else s
  }

  /** After the sweep an amount is still locked only before its maturity, and its status says so;
      what is no longer locked was burned or has matured. */
  lemma SweptIsSettled(rows: seq<Row>, maxEpoch: int, key: Key)
    requires FoldRows(rows, maxEpoch).Books? && key in FoldRows(rows, maxEpoch).book
    ensures var b := FoldRows(rows, maxEpoch);
            var s := Swept(b.book[key], b.maxEpoch);
            && (s.current > 0 ==> s.maturity > b.maxEpoch && (s.status == Open || s.status == PartiallyBurned))
            && (s.status == Matured || s.status == PartiallyBurnedThenMatured ==> s.current == 0 && s.maturity <= b.maxEpoch)
            && s.current + s.burned <= s.original
            && (s.current > 0 ==> s.original == s.current + s.burned)
  {
    hide FoldRows, Signed, Sum, LeastPrefix, Credits;
    FoldIsBalanced(rows, maxEpoch);
    NoMaturityBeforeSweep(rows, maxEpoch);
  }

  /** The fold itself never declares anything matured. */
  lemma {:induction false} NoMaturityBeforeSweep(rows: seq<Row>, maxEpoch: int)
    requires FoldRows(rows, maxEpoch).Books?
    ensures var book := FoldRows(rows, maxEpoch).book;
            forall key | key in book :: book[key].status in {Open, PartiallyBurned, Burned}
    decreases |rows|
  {
    hide Parse;
    if rows != [] {
      NoMaturityBeforeSweep(rows[..|rows| - 1], maxEpoch);
    }
  }

  // ---------------------------------------------------------------- the table

  /** A row of `invitation_liabilities`; inferred rows have no maturity. */
  datatype Stored = Stored(
    exact: bool,
    inviter: string,
    firstSeenEpoch: int,
    original: nat,
    current: nat,
    maturity: Option<int>,
    burned: nat,
    status: Status,
    lastSeenEpoch: int,
    lastHeight: nat)

  /** `upsert_liability` with an explicit original amount: on conflict the first epoch and the original amount are kept. */
  function Upsert(table: map<Key, Stored>, key: Key, row: Stored): map<Key, Stored> {
    if key !in table then table[key := row]
    else if table[key].exact && !row.exact then table
    else table[key := row.(original := table[key].original, firstSeenEpoch := table[key].firstSeenEpoch)]
  }

  /** What the rebuild writes: the last epoch goes into both epoch columns. */
  function StoredOf(s: Liability): Stored {
    Stored(true, s.inviter, s.lastSeenEpoch, s.original, s.current, Some(s.maturity), s.burned, s.status, s.lastSeenEpoch, s.lastHeight)
  }

  function Inferred(table: map<Key, Stored>): map<Key, Stored> {
    map key | key in table && !table[key].exact :: table[key]
  }

  /** The table after a rebuild: exact rows are replaced, inferred rows without an exact counterpart stay. */
  function Refreshed(table: map<Key, Stored>, book: Book, maxEpoch: int): map<Key, Stored> {
    map key | key in Inferred(table).Keys + book.Keys ::
      if key !in book then table[key]
      else
        var row := StoredOf(Swept(book[key], maxEpoch));
        if key in Inferred(table) then row.(original := table[key].original, firstSeenEpoch := table[key].firstSeenEpoch) else row
  }

  /** The table when the liabilities of these keys have been written. */
  ghost predicate RefreshedFor(table: map<Key, Stored>, book: Book, maxEpoch: int, done: set<Key>, result: map<Key, Stored>)
    requires done <= book.Keys
  {
    && result.Keys == Inferred(table).Keys + done
    && forall key | key in result ::
         result[key] == if key in done then Refreshed(table, book, maxEpoch)[key] else table[key]
  }

  lemma UpsertStep(table: map<Key, Stored>, book: Book, maxEpoch: int, done: set<Key>, result: map<Key, Stored>, key: Key)
    requires done <= book.Keys && key in book && key !in done && RefreshedFor(table, book, maxEpoch, done, result)
    ensures RefreshedFor(table, book, maxEpoch, done + {key}, Upsert(result, key, StoredOf(Swept(book[key], maxEpoch))))
  {
    hide Swept;
  }

  /** The deletion and the loop of upserts. */
  method Refresh(table: map<Key, Stored>, book: Book, maxEpoch: int) returns (result: map<Key, Stored>)
    ensures result == Refreshed(table, book, maxEpoch)
  {
    hide Swept, StoredOf, Upsert;
    result := Inferred(table);
    var left := book.Keys;
    ghost var done := {};
    while left != {}
      invariant left <= book.Keys && done == book.Keys - left
      invariant RefreshedFor(table, book, maxEpoch, done, result)
      decreases left
    {
      hide RefreshedFor;
      var key :| key in left;
      UpsertStep(table, book, maxEpoch, done, result, key);
      result := Upsert(result, key, StoredOf(Swept(book[key], maxEpoch)));
      done, left := done + {key}, left - {key};
    }
    assert done == book.Keys;
  }

  /** What the live indexer infers never changes a row that was rebuilt from exact rewards. Any other row it meets takes
      all new columns but the original amount and the first epoch, and no other key is touched. */
  lemma InferredKeepsExact(table: map<Key, Stored>, key: Key, row: Stored)
    ensures var after := Upsert(table, key, row);
            && after.Keys == table.Keys + {key} && (forall other | other in table && other != key :: after[other] == table[other])
            && (key in table && table[key].exact && !row.exact ==> after[key] == table[key])
            && (key !in table ==> after[key] == row)
            && (key in table && (row.exact || !table[key].exact) ==>
                  && after[key].original == table[key].original && after[key].firstSeenEpoch == table[key].firstSeenEpoch
                  && after[key].(original := row.original, firstSeenEpoch := row.firstSeenEpoch) == row)
  {
  }

  /** The original amount and the first epoch of a rebuilt row are those of the liability exactly when no inferred row
      with others was stored under its key before the rebuild. */
  lemma StoredOriginalIff(table: map<Key, Stored>, book: Book, maxEpoch: int, key: Key)
    requires key in book
    ensures key in Refreshed(table, book, maxEpoch)
    ensures var row := Refreshed(table, book, maxEpoch)[key];
            (row.original == book[key].original && row.firstSeenEpoch == book[key].lastSeenEpoch) <==>
              !(key in table && !table[key].exact
                && (table[key].original != book[key].original || table[key].firstSeenEpoch != book[key].lastSeenEpoch))
  {
  }

  /** The first-seen column of a rebuilt row is the liability's own first epoch only if no later epoch was seen: a new
      row is stored with the last one. */
  lemma StoredFirstEpochIff(table: map<Key, Stored>, book: Book, maxEpoch: int, key: Key)
    requires key in book && (key in table ==> table[key].exact)
    ensures key in Refreshed(table, book, maxEpoch)
    ensures Refreshed(table, book, maxEpoch)[key].firstSeenEpoch == book[key].firstSeenEpoch
       <==> book[key].lastSeenEpoch == book[key].firstSeenEpoch
  {
  }

  /** A table without inferred rows is forgotten by a rebuild, and stays without them. */
  lemma RefreshForgets(table: map<Key, Stored>, book: Book, maxEpoch: int)
    requires forall key | key in table :: table[key].exact
    ensures Refreshed(table, book, maxEpoch) == Refreshed(map[], book, maxEpoch)
    ensures forall key | key in Refreshed(table, book, maxEpoch) :: Refreshed(table, book, maxEpoch)[key].exact
  {
    hide Swept;
  }
}
