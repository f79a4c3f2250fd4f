/**
 * The decision inside `renderSlots`: which of the seventeen start hours from
 * 6:00 to 22:00 can be picked for a date, a turf and a duration.
 */
module Availability {
  import opened Wrappers
  import opened Intervals
  import opened Store

  /** One button of the slot grid: its start hour and whether it can be picked. */
  datatype Slot = Slot(hour: int, bookable: bool)

  /** The seventeen candidate start hours, 6 to 22 in ascending order. */
  function SlotHours(): seq<int> {
    seq(17, i => i + 6)
  }

  /** The latest start hour the grid offers for `dur` hours. */
  function MaxStart(dur: int): int {
    22 - (dur - 1)
  }

  /** Start hour `h` is inside the closing-time bound and clashes with nothing on this date and turf. */
  predicate Bookable(bs: seq<Booking>, date: string, turf: string, dur: int, h: int) {
    !(h > MaxStart(dur)) && !Conflict(bs, date, turf, h, dur)
  }

  /**
   * The slot grid. With no date or no turf chosen it is empty; otherwise it
   * lists the hours 6 to 22 in order, and an hour can be picked exactly when
   * the booking would end by 23:00 and no record for the same date and turf
   * overlaps it.
   */
  function RenderSlots(bs: seq<Booking>, date: string, turf: string, dur: int): (r: seq<Slot>)
    ensures date == "" || turf == "" ==> r == []
    ensures date != "" && turf != "" ==> |r| == 17
    ensures forall i :: 0 <= i < |r| ==> r[i].hour == 6 + i
    ensures forall i :: 0 <= i < |r| ==>
      (r[i].bookable <==>
        && r[i].hour + dur <= 23
        && forall b :: b in bs && OnCourt(b, date, turf) ==> !Overlaps(r[i].hour, dur, b.start, b.duration))
  {
    if date == "" || turf == "" then []
    else
      var hours := SlotHours();
      seq(|hours|, i requires 0 <= i < |hours| => Slot(hours[i], Bookable(bs, date, turf, dur, hours[i])))
  }

  /** Only the records for the chosen date and turf matter: stores that agree on them render the same grid. */
  lemma RenderSlotsOnlySameCourt(bs1: seq<Booking>, bs2: seq<Booking>, date: string, turf: string, dur: int)
    requires forall b :: b in bs1 && OnCourt(b, date, turf) <==> b in bs2 && OnCourt(b, date, turf)
    ensures RenderSlots(bs1, date, turf, dur) == RenderSlots(bs2, date, turf, dur)
  {
    var r1, r2 := RenderSlots(bs1, date, turf, dur), RenderSlots(bs2, date, turf, dur);
    assert |r1| == |r2|;
    forall i | 0 <= i < |r1| ensures r1[i] == r2[i] {
      assert r1[i].bookable == r2[i].bookable;
    }
  }

  /** A booking for another date or another turf never changes the grid. */
  lemma OtherCourtIrrelevant(bs: seq<Booking>, x: Booking, date: string, turf: string, dur: int)
    requires !OnCourt(x, date, turf)
    ensures RenderSlots(bs + [x], date, turf, dur) == RenderSlots(bs, date, turf, dur)
  {
    RenderSlotsOnlySameCourt(bs + [x], bs, date, turf, dur);
  }

  /** More records for the date and turf can only disable hours, never free them. */
  lemma RenderSlotsMonotone(bs1: seq<Booking>, bs2: seq<Booking>, date: string, turf: string, dur: int)
    requires forall b :: b in bs1 && OnCourt(b, date, turf) ==> b in bs2
    ensures |RenderSlots(bs1, date, turf, dur)| == |RenderSlots(bs2, date, turf, dur)|
    ensures forall i :: 0 <= i < |RenderSlots(bs2, date, turf, dur)| && RenderSlots(bs2, date, turf, dur)[i].bookable ==>
      RenderSlots(bs1, date, turf, dur)[i].bookable
  {
  }

  /** Adding a booking never turns a disabled hour into a bookable one. */
  lemma AddingNeverFrees(bs: seq<Booking>, x: Booking, date: string, turf: string, dur: int, i: int)
    requires 0 <= i < |RenderSlots(bs, date, turf, dur)|
    requires !RenderSlots(bs, date, turf, dur)[i].bookable
    ensures !RenderSlots(bs + [x], date, turf, dur)[i].bookable
  {
    RenderSlotsMonotone(bs, bs + [x], date, turf, dur);
  }

  /**
   * Cancelling a record frees its own hours: with the store invariant, the
   * cancelled booking's start is offered again for its date, turf and
   * duration.
   */
  lemma CancelFreesSlot(bs: seq<Booking>, k: int)
    requires NoOverlap(bs)
    requires 0 <= k < |bs|
    requires bs[k].date != "" && bs[k].turf != ""
    requires 6 <= bs[k].start <= 22 && bs[k].start + bs[k].duration <= 23
    ensures var b := bs[k];
      RenderSlots(Cancel(bs, b.id), b.date, b.turf, b.duration)[b.start - 6].bookable
  {
    var b := bs[k];
    var after := Cancel(bs, b.id);
    forall c | c in after && OnCourt(c, b.date, b.turf)
      ensures !Overlaps(b.start, b.duration, c.start, c.duration)
    {
      var j :| 0 <= j < |bs| && bs[j] == c;
      assert j != k;
      NoOverlapBothWays(bs, k, j);
    }
  }

  /** Closing time: four hours cannot start after 19:00, while one hour may start at 22:00 and end at 23:00. */
  lemma ClosingTimeExamples(date: string)
    requires date != ""
    ensures !RenderSlots([], date, "5", 4)[20 - 6].bookable
    ensures RenderSlots([], date, "5", 4)[19 - 6].bookable
    ensures RenderSlots([], date, "5", 1)[22 - 6].bookable
  {
  }

  /** A two-hour booking at 10:00 blocks two-hour starts at 9:00 and 11:00, but not at 8:00 or 12:00. */
  lemma ExistingBookingExample(date: string, b: Booking)
    requires date != ""
    requires b.date == date && b.turf == "5" && b.start == 10 && b.duration == 2
    ensures !RenderSlots([b], date, "5", 2)[9 - 6].bookable
    ensures !RenderSlots([b], date, "5", 2)[11 - 6].bookable
    ensures RenderSlots([b], date, "5", 2)[8 - 6].bookable
    ensures RenderSlots([b], date, "5", 2)[12 - 6].bookable
  {
    assert forall c :: c in [b] ==> c == b;
  }
}
