/**
 * The bookings table of `renderTable`: the turf filter, the search box,
 * and the ordering by date and then start hour.
 */
module Listing {
  import Text
  import opened Seqs
  import opened Store

  /** The table's comparator: the date comparison, or the start difference when the dates are equal. */
  function Comparator(a: Booking, b: Booking): int {
    var c := Text.Compare(a.date, b.date);
    if c != 0 then c else a.start - b.start
  }

  /**
   * The comparator puts `a` first: it returns a negative number. No record
   * goes before itself, or before one with the same date and start.
   */
  predicate Before(a: Booking, b: Booking): (r: bool)
    ensures r <==> Comparator(a, b) < 0
    ensures r ==> a.date != b.date || a.start < b.start
  {
    Text.LexLess(a.date, b.date) || (a.date == b.date && a.start < b.start)
  }

  /** `a` may be listed ahead of `b`. */
  predicate InOrder(a: Booking, b: Booking) {
    !Before(b, a)
  }

  /** Every record is listed no later than the ones after it. */
  ghost predicate SortedByDateStart(s: seq<Booking>) {
    Pairwise(s, InOrder)
  }

  lemma BeforeAsymmetric(a: Booking, b: Booking)
    requires Before(a, b)
    ensures InOrder(a, b)
  {
    if Text.LexLess(a.date, b.date) {
      Text.LexLessAsymmetric(a.date, b.date);
    } else {
      Text.LexLessIrreflexive(a.date);
    }
  }

  lemma InOrderTransitive(a: Booking, b: Booking, c: Booking)
    requires InOrder(a, b) && InOrder(b, c)
    ensures InOrder(a, c)
  {
    if Before(c, a) {
      if a.date != b.date {
        Text.LexLessTotal(a.date, b.date);
      }
      if b.date != c.date {
        Text.LexLessTotal(b.date, c.date);
      }
      if Text.LexLess(a.date, b.date) && Text.LexLess(b.date, c.date) {
        Text.LexLessTransitive(a.date, b.date, c.date);
        Text.LexLessAsymmetric(a.date, c.date);
        Text.LexLessIrreflexive(a.date);
      } else if Text.LexLess(a.date, b.date) {
        Text.LexLessAsymmetric(a.date, c.date);
        Text.LexLessIrreflexive(a.date);
        if Text.LexLess(c.date, a.date) {
          Text.LexLessTransitive(c.date, a.date, b.date);
        }
      } else if Text.LexLess(b.date, c.date) {
        Text.LexLessIrreflexive(a.date);
        if Text.LexLess(c.date, a.date) {
          Text.LexLessTransitive(b.date, c.date, a.date);
        }
      } else {
        Text.LexLessIrreflexive(a.date);
      }
    }
  }

  /**
   * Inserts `x` into a sorted list ahead of the first record it may precede,
   * so it lands before records with the same date and start.
   */
  function Insert(x: Booking, s: seq<Booking>): (r: seq<Booking>)
    requires SortedByDateStart(s)
    ensures SortedByDateStart(r)
    ensures multiset(r) == multiset(s) + multiset{x}
    decreases |s|
  {
    if |s| == 0 || InOrder(x, s[0]) then
      assert forall y :: y in s ==> InOrder(x, y) by {
        forall y | y in s ensures InOrder(x, y) {
          var j :| 0 <= j < |s| && s[j] == y;
          if j > 0 {
            InOrderTransitive(x, s[0], y);
          }
        }
      }
      ConsPairwise(x, s, InOrder);
      [x] + s
    else
      var tail := s[1..];
      assert SortedByDateStart(tail) by {
        forall i, j | 0 <= i < j < |tail| ensures InOrder(tail[i], tail[j]) {
          assert tail[i] == s[i + 1] && tail[j] == s[j + 1];
        }
      }
      var rest := Insert(x, tail);
      assert forall y :: y in rest ==> InOrder(s[0], y) by {
        forall y | y in rest ensures InOrder(s[0], y) {
          assert y in multiset(rest);
          if y == x {
            BeforeAsymmetric(s[0], x);
          } else {
            assert y in multiset(tail);
            var j :| 0 <= j < |tail| && tail[j] == y;
            assert s[j + 1] == y;
          }
        }
      }
      ConsPairwise(s[0], rest, InOrder);
      assert s == [s[0]] + tail;
      [s[0]] + rest
  }

  /** Insertion sort by date, then start hour. */
  function SortByDateStart(s: seq<Booking>): (r: seq<Booking>)
    ensures SortedByDateStart(r)
    ensures multiset(r) == multiset(s)
    decreases |s|
  {
    if |s| == 0 then []
    else
      assert s == [s[0]] + s[1..];
      Insert(s[0], SortByDateStart(s[1..]))
  }

  /** The records with a given date and start hour: the ones the comparator calls equal. */
  function SlotFilter(date: string, start: int): Booking -> bool {
    (b: Booking) => b.date == date && b.start == start
  }

  /**
   * Insertion is stable: among the records with any one date and start, `x`
   * comes first and the rest keep their order.
   */
  lemma {:induction false} InsertStable(x: Booking, s: seq<Booking>, date: string, start: int)
    requires SortedByDateStart(s)
    ensures Filter(Insert(x, s), SlotFilter(date, start)) == Filter([x] + s, SlotFilter(date, start))
    decreases |s|
  {
    var p := SlotFilter(date, start);
    if |s| > 0 && !InOrder(x, s[0]) {
      var tail := s[1..];
      InsertPastHead(x, s);
      InsertStable(x, tail, date, start);
      assert !(p(x) && p(s[0])) by {
        assert Before(s[0], x);
      }
      assert s == [s[0]] + tail;
      FilterFrontSwap(s[0], Insert(x, tail), x, tail, p);
    }
  }

  /** A record that must follow the head is inserted into the tail. */
  lemma InsertPastHead(x: Booking, s: seq<Booking>)
    requires |s| > 0 && SortedByDateStart(s) && !InOrder(x, s[0])
    ensures SortedByDateStart(s[1..])
    ensures Insert(x, s) == [s[0]] + Insert(x, s[1..])
  {
    SortedTail(s);
  }

  /** Dropping the first record of a sorted list leaves it sorted. */
  lemma SortedTail(s: seq<Booking>)
    requires |s| > 0 && SortedByDateStart(s)
    ensures SortedByDateStart(s[1..])
  {
    var tail := s[1..];
    forall i, j | 0 <= i < j < |tail| ensures InOrder(tail[i], tail[j]) {
      assert tail[i] == s[i + 1] && tail[j] == s[j + 1];
    }
  }

  /**
   * The sort is stable, as `Array.prototype.sort` is: the records with any
   * one date and start come out in the order they went in.
   */
  lemma {:induction false} SortStable(s: seq<Booking>, date: string, start: int)
    ensures Filter(SortByDateStart(s), SlotFilter(date, start)) == Filter(s, SlotFilter(date, start))
    decreases |s|
  {
    if |s| > 0 {
      var p := SlotFilter(date, start);
      var sorted := SortByDateStart(s[1..]);
      SortStable(s[1..], date, start);
      InsertStable(s[0], sorted, date, start);
      FilterCons(s[0], sorted, p);
      assert s == [s[0]] + s[1..];
      FilterCons(s[0], s[1..], p);
    }
  }

  /** The search text, trimmed and lower-cased. */
  function NormalQuery(query: string): string {
    Text.ToLower(Text.Trim(query))
  }

  /** No turf filter is set, or the record is for the filtered turf. */
  predicate MatchesTurf(b: Booking, tFilter: string): (r: bool)
    ensures tFilter == "" ==> r
    ensures tFilter != "" ==> (r <==> b.turf == tFilter)
  {
    tFilter == "" || b.turf == tFilter
  }

  /** No search is set, or it occurs at some offset of the lower-cased name or of the date. */
  predicate MatchesQuery(b: Booking, q: string): (r: bool)
    ensures q == "" ==> r
    ensures q != "" ==> (r <==>
      (exists i :: Text.OccursAt(Text.ToLower(b.name), q, i)) || (exists i :: Text.OccursAt(b.date, q, i)))
  {
    q == "" || Text.Contains(Text.ToLower(b.name), q) || Text.Contains(b.date, q)
  }

  function TurfFilter(tFilter: string): Booking -> bool {
    b => MatchesTurf(b, tFilter)
  }

  function QueryFilter(q: string): Booking -> bool {
    b => MatchesQuery(b, q)
  }

  /**
   * The rows of the bookings table: every record that passes the turf filter
   * and the search, each as often as it is stored, ordered by date and then
   * start hour.
   */
  function RenderTable(bs: seq<Booking>, query: string, tFilter: string): (r: seq<Booking>)
    ensures SortedByDateStart(r)
    ensures forall b ::
              multiset(r)[b] == if MatchesTurf(b, tFilter) && MatchesQuery(b, NormalQuery(query))
                                then multiset(bs)[b] else 0
  {
    var byTurf := Filter(bs, TurfFilter(tFilter));
    var matched := Filter(byTurf, QueryFilter(NormalQuery(query)));
    SortByDateStart(matched)
  }

  /** A record is listed exactly when it is stored and passes both filters. */
  lemma ListedIff(bs: seq<Booking>, query: string, tFilter: string, b: Booking)
    ensures b in RenderTable(bs, query, tFilter) <==>
      b in bs && MatchesTurf(b, tFilter) && MatchesQuery(b, NormalQuery(query))
  {
    var r := RenderTable(bs, query, tFilter);
    assert b in r <==> multiset(r)[b] > 0;
    assert b in bs <==> multiset(bs)[b] > 0;
  }

  /**
   * Rows with the same date and start are listed in the order they are
   * stored, since both filters and the sort keep relative order.
   */
  lemma TableKeepsStoredOrder(bs: seq<Booking>, query: string, tFilter: string, date: string, start: int)
    ensures Filter(RenderTable(bs, query, tFilter), SlotFilter(date, start)) ==
      Filter(Filter(Filter(bs, TurfFilter(tFilter)), QueryFilter(NormalQuery(query))), SlotFilter(date, start))
  {
    var matched := Filter(Filter(bs, TurfFilter(tFilter)), QueryFilter(NormalQuery(query)));
    SortStable(matched, date, start);
  }

  /** With no filter and an empty search, the table lists every stored record, sorted. */
  lemma UnfilteredTableListsAll(bs: seq<Booking>)
    ensures multiset(RenderTable(bs, "", "")) == multiset(bs)
  {
    assert Text.Trim("") == "";
  }
}
