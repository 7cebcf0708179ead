/**
 The table of coverage gaps. Recording a range merges it with the rows of the same
 reason it overlaps or touches, so that the table stays the set of maximal intervals
 of a set of heights (`RecordedIsUnion`), and depends on nothing but that set
 (`TidyIsUnique`).
 */
module CoverageGaps {

  /** A row of `coverage_gaps`; its id is hashed from all three columns. */
  datatype Gap = Gap(first: int, last: int, reason: string)

  /** The height lies in a gap recorded for the reason. */
  ghost predicate InGap(gaps: set<Gap>, reason: string, height: int) {
    exists g :: g in gaps && g.reason == reason && g.first <= height <= g.last
  }

  /** A free height lies between the two. */
  predicate Apart(g: Gap, h: Gap) {
    g.last + 1 < h.first || h.last + 1 < g.first
  }

  /** Rows of one reason are nonempty, pairwise disjoint and not adjacent. */
  ghost predicate Tidy(gaps: set<Gap>) {
    && (forall g | g in gaps :: g.first <= g.last)
    && (forall g, h | g in gaps && h in gaps && g.reason == h.reason && g != h :: Apart(g, h))
  }

  /** The row overlaps the range or is adjacent to it. */
  predicate Hit(g: Gap, first: int, last: int, reason: string) {
    g.reason == reason && g.first <= last + 1 && g.last >= first - 1
  }

  function Hits(gaps: set<Gap>, first: int, last: int, reason: string): set<Gap> {
    set g | g in gaps && Hit(g, first, last, reason)
  }

  /** The least interval around the range and these rows. */
  ghost predicate Spans(m: Gap, first: int, last: int, reason: string, hits: set<Gap>) {
    && m.reason == reason && m.first <= first && m.last >= last
    && (forall g | g in hits :: m.first <= g.first && g.last <= m.last)
    && (m.first == first || exists g :: g in hits && g.first == m.first)
    && (m.last == last || exists g :: g in hits && g.last == m.last)
  }

  /** What `record_gap` leaves in the table. */
  ghost predicate Recorded(before: set<Gap>, first: int, last: int, reason: string, after: set<Gap>) {
    if last < first then after == before
    else
      var hits := Hits(before, first, last, reason);
      exists m :: Spans(m, first, last, reason, hits) && after == (before - hits) + {m}
  }

  /** The merged row keeps clear of every row that was not hit. */
  lemma MergedIsApart(before: set<Gap>, first: int, last: int, reason: string, m: Gap, g: Gap)
    requires Tidy(before) && first <= last && Spans(m, first, last, reason, Hits(before, first, last, reason))
    requires g in before && g.reason == reason && !Hit(g, first, last, reason)
    ensures Apart(g, m)
  {
    var hits := Hits(before, first, last, reason);
    if m.first != first {
      var h :| h in hits && h.first == m.first;
      assert Apart(g, h);
    }
    if m.last != last {
      var h :| h in hits && h.last == m.last;
      assert Apart(g, h);
    }
  }

  /** A height between the ends of the merged row is in the range or in a row that was hit. */
  lemma MergedHasNoMore(first: int, last: int, reason: string, hits: set<Gap>, m: Gap, height: int)
    requires first <= last && Spans(m, first, last, reason, hits) && m.first <= height <= m.last
    requires forall g | g in hits :: Hit(g, first, last, reason)
    ensures first <= height <= last || exists g :: g in hits && g.first <= height <= g.last
  {
    if height < first {
      var g :| g in hits && g.first == m.first;
      assert g.first <= height <= g.last;
    } else if height > last {
      var g :| g in hits && g.last == m.last;
      assert g.first <= height <= g.last;
    }
  }

  /** The heights of the table after a range was recorded. */
  lemma RecordedHeight(before: set<Gap>, first: int, last: int, reason: string, after: set<Gap>, other: string, height: int)
    requires Recorded(before, first, last, reason, after)
    ensures InGap(after, other, height) <==> InGap(before, other, height) || (other == reason && first <= height <= last)
  {
    if first <= last {
      var hits := Hits(before, first, last, reason);
      var m :| Spans(m, first, last, reason, hits) && after == (before - hits) + {m};
      assert m in after;
      if g :| g in after && g.reason == other && g.first <= height <= g.last {
        if g == m {
          MergedHasNoMore(first, last, reason, hits, m, height);
        }
      }
      if g :| g in before && g.reason == other && g.first <= height <= g.last {
        assert g in hits || g in after;
      }
    }
  }

  lemma RecordedIsTidy(before: set<Gap>, first: int, last: int, reason: string, after: set<Gap>)
    requires Tidy(before) && Recorded(before, first, last, reason, after)
    ensures Tidy(after)
  {
    if first <= last {
      var hits := Hits(before, first, last, reason);
      var m :| Spans(m, first, last, reason, hits) && after == (before - hits) + {m};
      forall g | g in before && g.reason == reason && g !in hits ensures Apart(g, m) {
        MergedIsApart(before, first, last, reason, m, g);
      }
    }
  }

  /** Recording a range keeps the table tidy, adds exactly the heights of the range to its reason, and changes no
      other reason. */
  lemma RecordedIsUnion(before: set<Gap>, first: int, last: int, reason: string, after: set<Gap>)
    requires Tidy(before) && Recorded(before, first, last, reason, after)
    ensures Tidy(after)
    ensures forall other, height :: (InGap(after, other, height)
                                     <==> InGap(before, other, height) || (other == reason && first <= height <= last))
  {
    hide Recorded, Tidy, InGap;
    RecordedIsTidy(before, first, last, reason, after);
    forall other, height
      ensures InGap(after, other, height) <==> InGap(before, other, height) || (other == reason && first <= height <= last)
    {
      RecordedHeight(before, first, last, reason, after, other, height);
    }
  }

  /** No height next to a row of a tidy table belongs to the same reason. */
  lemma EndsAreFree(gaps: set<Gap>, g: Gap)
    requires Tidy(gaps) && g in gaps
    ensures !InGap(gaps, g.reason, g.first - 1) && !InGap(gaps, g.reason, g.last + 1)
  {
  }

  lemma SameRow(a: set<Gap>, b: set<Gap>, g: Gap)
    requires Tidy(a) && Tidy(b) && g in a
    requires forall reason, height :: InGap(a, reason, height) <==> InGap(b, reason, height)
    ensures g in b
  {
    assert InGap(a, g.reason, g.first);
    var h :| h in b && h.reason == g.reason && h.first <= g.first <= h.last;
    InsideIsInGap(a, g);
    InsideIsInGap(b, h);
    EndsAreFree(a, g);
    EndsAreFree(b, h);
  }

  lemma InsideIsInGap(gaps: set<Gap>, g: Gap)
    requires g in gaps
    ensures forall height | g.first <= height <= g.last :: InGap(gaps, g.reason, height)
  {
  }

  /** Tidy tables of the same heights are equal, so the order in which ranges were recorded does not show. */
  lemma TidyIsUnique(a: set<Gap>, b: set<Gap>)
    requires Tidy(a) && Tidy(b)
    requires forall reason, height :: InGap(a, reason, height) <==> InGap(b, reason, height)
    ensures a == b
  {
    forall g ensures g in a <==> g in b {
      if g in a {
        SameRow(a, b, g);
      }
      if g in b {
        SameRow(b, a, g);
      }
    }
  }

  class GapTable {
    var gaps: set<Gap>

    constructor ()
      ensures gaps == {}
    {
      gaps := {};
    }

    /** `record_gap`. */
    method RecordGap(first: int, last: int, reason: string)
      requires Tidy(gaps)
      modifies this
      ensures Tidy(gaps) && Recorded(old(gaps), first, last, reason, gaps)
      ensures forall other, height ::
                InGap(gaps, other, height) <==> InGap(old(gaps), other, height) || (other == reason && first <= height <= last)
    {
      ghost var before := gaps;
      if last >= first {
        var hits := Hits(gaps, first, last, reason);
        var m := Around(first, last, reason, hits);
        gaps := (gaps - hits) + {m};
      }
      assert Recorded(before, first, last, reason, gaps);
      RecordedIsUnion(before, first, last, reason, gaps);
    }
  }

  /** The least first and the greatest last height. */
  method Around(first: int, last: int, reason: string, hits: set<Gap>) returns (m: Gap)
    ensures Spans(m, first, last, reason, hits)
  {
    var low, high := first, last;
    var left := hits;
    while left != {}
      invariant left <= hits && Spans(Gap(low, high, reason), first, last, reason, hits - left)
      decreases left
    {
      var g :| g in left;
      SpansMore(Gap(low, high, reason), first, last, reason, hits - left, g);
      low := if g.first < low then g.first else low;
      high := if g.last > high then g.last else high;
      assert hits - left + {g} == hits - (left - {g});
      left := left - {g};
    }
    assert hits - left == hits;
    m := Gap(low, high, reason);
  }

  lemma SpansMore(m: Gap, first: int, last: int, reason: string, hits: set<Gap>, g: Gap)
    requires Spans(m, first, last, reason, hits)
    ensures Spans(Gap(if g.first < m.first then g.first else m.first, if g.last > m.last then g.last else m.last, reason),
                  first, last, reason, hits + {g})
  {
    var more := hits + {g};
    if m.first != first {
      var h :| h in hits && h.first == m.first;
      assert h in more;
    }
    if m.last != last {
      var h :| h in hits && h.last == m.last;
      assert h in more;
    }
    assert g in more;
  }
}
