/**
 * The booking records and the store-level operations of the script: the
 * same-date, same-turf selection, the conflict test, `byId`, and the
 * cancellation filter, together with the store's no-overlap invariant.
 */
module Store {
  import opened Wrappers
  import opened Intervals
  import opened Seqs

  /** One saved booking, with the fields the confirm handler writes. */
  datatype Booking = Booking(
    id: int,
    name: string,
    date: string,
    start: int,
    duration: int,
    turf: string,
    players: int,
    total: int,
    coupon: Option<string>)

  /** The booking is for the given date on the given turf. */
  predicate OnCourt(b: Booking, date: string, turf: string) {
    b.date == date && b.turf == turf
  }

  /** Two bookings for the same date and turf whose hours intersect. */
  predicate Clash(a: Booking, b: Booking) {
    OnCourt(b, a.date, a.turf) && Overlaps(a.start, a.duration, b.start, b.duration)
  }

  predicate Compatible(a: Booking, b: Booking) {
    !Clash(a, b)
  }

  predicate DistinctIds(a: Booking, b: Booking) {
    a.id != b.id
  }

  /** The store invariant: no two records for the same date and turf overlap. */
  ghost predicate NoOverlap(bs: seq<Booking>) {
    Pairwise(bs, Compatible)
  }

  /** Every record has its own id. */
  ghost predicate UniqueIds(bs: seq<Booking>) {
    Pairwise(bs, DistinctIds)
  }

  lemma ClashSymmetric(a: Booking, b: Booking)
    ensures Clash(a, b) <==> Clash(b, a)
  {
    OverlapsSymmetric(a.start, a.duration, b.start, b.duration);
  }

  /** The invariant read in both directions: no record clashes with any other record. */
  lemma NoOverlapBothWays(bs: seq<Booking>, i: int, j: int)
    requires NoOverlap(bs)
    requires 0 <= i < |bs| && 0 <= j < |bs| && i != j
    ensures !Clash(bs[i], bs[j])
  {
    if j < i {
      ClashSymmetric(bs[i], bs[j]);
    }
  }

  function AtCourt(date: string, turf: string): Booking -> bool {
    b => OnCourt(b, date, turf)
  }

  /** The records for the given date and turf, in stored order. */
  function DayBooks(bs: seq<Booking>, date: string, turf: string): (r: seq<Booking>)
    ensures forall b :: b in r <==> b in bs && OnCourt(b, date, turf)
  {
    Filter(bs, AtCourt(date, turf))
  }

  /** The conflict test of the slot grid and of confirm: some record for this date and turf intersects `[start, start+dur)`. */
  function Conflict(bs: seq<Booking>, date: string, turf: string, start: int, dur: int): (r: bool)
    ensures r <==> exists b :: b in bs && OnCourt(b, date, turf) && Overlaps(start, dur, b.start, b.duration)
  {
    var day := DayBooks(bs, date, turf);
    var r := Any(day, (b: Booking) => Overlaps(start, dur, b.start, b.duration));
    assert r ==> exists b :: b in bs && OnCourt(b, date, turf) && Overlaps(start, dur, b.start, b.duration) by {
      if r {
        var i :| 0 <= i < |day| && Overlaps(start, dur, day[i].start, day[i].duration);
        assert day[i] in day;
      }
    }
    assert (exists b :: b in bs && OnCourt(b, date, turf) && Overlaps(start, dur, b.start, b.duration)) ==> r by {
      if exists b :: b in bs && OnCourt(b, date, turf) && Overlaps(start, dur, b.start, b.duration) {
        var b :| b in bs && OnCourt(b, date, turf) && Overlaps(start, dur, b.start, b.duration);
        assert b in day;
        var i :| 0 <= i < |day| && day[i] == b;
      }
    }
    r
  }

  /** Position `k` holds the first record carrying `id`. */
  predicate FirstWithId(bs: seq<Booking>, id: int, k: int) {
    0 <= k < |bs| && bs[k].id == id && forall j :: 0 <= j < k ==> bs[j].id != id
  }

  /** `byId`: the first record carrying `id`, if any. */
  function ById(bs: seq<Booking>, id: int): (r: Option<Booking>)
    ensures r.None? <==> forall i :: 0 <= i < |bs| ==> bs[i].id != id
    ensures r.Some? ==> exists k :: FirstWithId(bs, id, k) && bs[k] == r.value
    decreases |bs|
  {
    if |bs| == 0 then None
    else if bs[0].id == id then
      assert FirstWithId(bs, id, 0);
      Some(bs[0])
    else
      var r := ById(bs[1..], id);
      assert forall i :: 1 <= i < |bs| ==> bs[i] == bs[1..][i - 1];
      assert r.Some? ==> exists k :: FirstWithId(bs, id, k) && bs[k] == r.value by {
        if r.Some? {
          var k :| FirstWithId(bs[1..], id, k) && bs[1..][k] == r.value;
          assert FirstWithId(bs, id, k + 1);
        }
      }
      r
  }

  function KeepOther(id: int): Booking -> bool {
    (b: Booking) => b.id != id
  }

  /** Cancellation: every record but those carrying `id`. */
  function Cancel(bs: seq<Booking>, id: int): (r: seq<Booking>)
    ensures |r| <= |bs|
    ensures forall b :: b in r <==> b in bs && b.id != id
  {
    Filter(bs, KeepOther(id))
  }

  /** The handler returns early when `byId` finds nothing, and the filter would change nothing either. */
  lemma CancelAbsent(bs: seq<Booking>, id: int)
    requires ById(bs, id).None?
    ensures Cancel(bs, id) == bs
  {
    FilterKeepsAll(bs, KeepOther(id));
  }

  /**
   * With unique ids, cancelling the record at position `k` removes exactly
   * that record and keeps the others in their original order.
   */
  lemma CancelRemovesOne(bs: seq<Booking>, k: int)
    requires UniqueIds(bs)
    requires 0 <= k < |bs|
    ensures Cancel(bs, bs[k].id) == bs[..k] + bs[k + 1..]
    ensures |Cancel(bs, bs[k].id)| == |bs| - 1
  {
    var p := KeepOther(bs[k].id);
    var before, after := bs[..k], bs[k + 1..];
    forall i | 0 <= i < |before| ensures p(before[i]) {
      assert DistinctIds(bs[i], bs[k]);
    }
    forall i | 0 <= i < |after| ensures p(after[i]) {
      assert DistinctIds(bs[k], bs[k + 1 + i]);
    }
    assert bs == before + [bs[k]] + after;
    FilterDropsOne(before, bs[k], after, p);
  }

  /** Cancelling keeps a sub-sequence, so the no-overlap invariant survives it. */
  lemma CancelPreservesNoOverlap(bs: seq<Booking>, id: int)
    requires NoOverlap(bs)
    ensures NoOverlap(Cancel(bs, id))
  {
    FilterPairwise(bs, KeepOther(id), Compatible);
  }

  /** Cancelling keeps ids unique. */
  lemma CancelPreservesUniqueIds(bs: seq<Booking>, id: int)
    requires UniqueIds(bs)
    ensures UniqueIds(Cancel(bs, id))
  {
    FilterPairwise(bs, KeepOther(id), DistinctIds);
  }
}
