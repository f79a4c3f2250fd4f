/**
 * The booking form's handlers: coupon entry, the review step, and the
 * confirm step that re-checks for a clash against the current store before
 * appending the new record.
 */
module Checkout {
  import opened Wrappers
  import Text
  import opened Intervals
  import opened Seqs
  import opened Pricing
  import opened Store
  import opened Availability

  /**
   * What the handlers read from the form and the session: the field values
   * (`players` is `None` when its field is empty), the highlighted start hour,
   * and the coupon currently applied.
   */
  datatype Form = Form(
    name: string,
    date: string,
    turf: string,
    players: Option<int>,
    duration: int,
    start: Option<int>,
    coupon: Option<string>)

  /** The notices the coupon button shows. */
  datatype CouponNotice = EnterCoupon | InvalidCode | CouponApplied

  /** The coupon state after pressing the button, and the notice shown. */
  datatype CouponOutcome = CouponOutcome(applied: Option<string>, notice: CouponNotice)

  /**
   * The coupon button: the entered text is trimmed and upper-cased; an empty
   * code and any code but `TURF10` are refused and leave the applied coupon
   * as it was.
   */
  function ApplyCoupon(input: string, current: Option<string>): (r: CouponOutcome)
    ensures r.notice == EnterCoupon <==> Text.Trim(input) == ""
    ensures r.notice == CouponApplied <==> CouponMatches(Some(Text.Trim(input)))
    ensures r.notice != CouponApplied ==> r.applied == current
    ensures r.notice == CouponApplied ==> r.applied == Some(CouponCode)
  {
    var code := Text.ToUpper(Text.Trim(input));
    if code == "" then CouponOutcome(current, EnterCoupon)
    else if code != CouponCode then CouponOutcome(current, InvalidCode)
    else CouponOutcome(Some(CouponCode), CouponApplied)
  }

  /** A coupon the button accepts is one the pricing honours: it takes a tenth off every quote. */
  lemma AcceptedCouponIsHonoured(input: string, current: Option<string>, size: string, start: int, hours: int)
    requires ApplyCoupon(input, current).notice == CouponApplied
    ensures var applied := ApplyCoupon(input, current).applied;
      && CalcPrice(size, start, hours, applied).applied == Some(CouponCode)
      && CalcPrice(size, start, hours, applied).total * 10 == CalcPrice(size, start, hours, None).total * 9
  {
    var applied := ApplyCoupon(input, current).applied;
    assert Text.ToUpper(CouponCode) == CouponCode;
    CouponEffect(size, start, hours, applied);
  }

  /** The review step's refusal: "Fill all fields & select a start". */
  datatype ReviewError = MissingFields

  /** The review button passes with a name, a date, a turf and a start hour, and quotes the total. */
  function Review(f: Form): (r: Result<int, ReviewError>)
    ensures r.Failure? <==> f.name == "" || f.date == "" || f.turf == "" || f.start.None?
    ensures r.Success? ==> r.value == CalcPrice(f.turf, f.start.value, f.duration, f.coupon).total
  {
    if f.name == "" || f.date == "" || f.turf == "" || f.start.None? then Failure(MissingFields)
    else Success(CalcPrice(f.turf, f.start.value, f.duration, f.coupon).total)
  }

  /** The players count as read from the form: an empty field counts as ten. */
  function PlayersInput(f: Form): int {
    match f.players
    case Some(n) => n
    case None => 10
  }

  /**
   * The record the confirm handler builds for the selected start hour: the
   * name is stored without surrounding white space, the players count lies in
   * [2, 20] (ten when the field is empty, the entered count when it is already
   * in range), and the coupon is recorded exactly when it earned the discount.
   */
  function NewRecord(f: Form, id: int): (r: Booking)
    requires f.start.Some?
    ensures r.id == id && r.date == f.date && r.turf == f.turf
    ensures r.start == f.start.value && r.duration == f.duration
    ensures r.name == Text.Trim(f.name)
    ensures r.name == [] || (!Text.IsJsSpace(r.name[0]) && !Text.IsJsSpace(r.name[|r.name| - 1]))
    ensures |r.name| <= |f.name|
    ensures r.players == Clamp(PlayersInput(f), 2, 20)
    ensures 2 <= r.players <= 20
    ensures f.players.None? ==> r.players == 10
    ensures f.players.Some? && 2 <= f.players.value <= 20 ==> r.players == f.players.value
    ensures r.coupon.Some? <==> CouponMatches(f.coupon)
    ensures r.coupon.Some? ==> r.coupon.value == CouponCode
    ensures r.total == CalcPrice(f.turf, f.start.value, f.duration, f.coupon).total
  {
    var price := CalcPrice(f.turf, f.start.value, f.duration, f.coupon);
    Booking(
      id, Text.Trim(f.name), f.date, f.start.value, f.duration, f.turf,
      Clamp(PlayersInput(f), 2, 20), price.total, price.applied)
  }

  /** The confirm step's refusal: "Slot just got taken. Pick another." */
  datatype CommitError = SlotTaken

  /** The store after the confirm step, and the record written or the reason none was. */
  datatype CommitResult = CommitResult(bookings: seq<Booking>, outcome: Result<Booking, CommitError>)

  /**
   * The confirm handler. It is refused, leaving the store as it was, exactly
   * when a record for the same date and turf overlaps the selected hours;
   * otherwise the new record is appended after all existing ones. The
   * re-check is about overlap only: the closing-time bound is not repeated.
   */
  function Commit(bs: seq<Booking>, f: Form, id: int): (r: CommitResult)
    requires f.start.Some?
    ensures r.outcome.Failure? <==>
      exists b :: b in bs && OnCourt(b, f.date, f.turf) && Overlaps(f.start.value, f.duration, b.start, b.duration)
    ensures r.outcome.Failure? ==> r.bookings == bs
    ensures r.outcome.Success? ==> r.bookings == bs + [r.outcome.value]
    ensures r.outcome.Success? ==>
      var rec := r.outcome.value;
      var price := CalcPrice(f.turf, f.start.value, f.duration, f.coupon);
      && rec.id == id && rec.name == Text.Trim(f.name)
      && rec.date == f.date && rec.turf == f.turf
      && rec.start == f.start.value && rec.duration == f.duration
      && 2 <= rec.players <= 20 && rec.players == Clamp(PlayersInput(f), 2, 20)
      && rec.total == price.total && rec.coupon == price.applied
  {
    if Conflict(bs, f.date, f.turf, f.start.value, f.duration) then
      CommitResult(bs, Failure(SlotTaken))
    else
      var rec := NewRecord(f, id);
      CommitResult(bs + [rec], Success(rec))
  }

  /** The confirm step keeps the store invariant: no two records for one date and turf overlap. */
  lemma CommitPreservesNoOverlap(bs: seq<Booking>, f: Form, id: int)
    requires f.start.Some?
    requires NoOverlap(bs)
    ensures NoOverlap(Commit(bs, f, id).bookings)
  {
    var r := Commit(bs, f, id);
    if r.outcome.Success? {
      var rec := r.outcome.value;
      var after := r.bookings;
      forall i, j | 0 <= i < j < |after| ensures Compatible(after[i], after[j]) {
        if j < |bs| {
          assert after[i] == bs[i] && after[j] == bs[j];
        } else {
          assert after[i] == bs[i] && after[j] == rec;
          assert bs[i] in bs;
          ClashSymmetric(bs[i], rec);
          OverlapsSymmetric(bs[i].start, bs[i].duration, rec.start, rec.duration);
        }
      }
    }
  }

  /** With an id no record carries yet, the confirm step keeps ids unique. */
  lemma CommitPreservesUniqueIds(bs: seq<Booking>, f: Form, id: int)
    requires f.start.Some?
    requires UniqueIds(bs)
    requires ById(bs, id).None?
    ensures UniqueIds(Commit(bs, f, id).bookings)
  {
    var r := Commit(bs, f, id);
    if r.outcome.Success? {
      var after := r.bookings;
      forall i, j | 0 <= i < j < |after| ensures DistinctIds(after[i], after[j]) {
        assert after[i] == bs[i];
        if j < |bs| {
          assert after[j] == bs[j];
        }
      }
    }
  }

  /**
   * The grid and the confirm step agree on an unchanged store: an offered
   * hour is accepted at confirm time, and an hour the confirm step accepts
   * within closing time was offered.
   */
  lemma SlotAgreesWithCommit(bs: seq<Booking>, f: Form, id: int)
    requires f.start.Some? && 6 <= f.start.value <= 22
    requires f.date != "" && f.turf != ""
    ensures RenderSlots(bs, f.date, f.turf, f.duration)[f.start.value - 6].bookable <==>
      f.start.value + f.duration <= 23 && Commit(bs, f, id).outcome.Success?
  {
  }

  /**
   * The race the re-check guards against: an hour offered when the grid was
   * drawn, then taken by a clashing record, is refused at confirm time and
   * the store keeps no overlapping pair.
   */
  lemma StaleSelectionRejected(bs: seq<Booking>, x: Booking, f: Form, id: int)
    requires f.start.Some?
    requires NoOverlap(bs + [x])
    requires OnCourt(x, f.date, f.turf) && Overlaps(f.start.value, f.duration, x.start, x.duration)
    ensures Commit(bs + [x], f, id) == CommitResult(bs + [x], Failure(SlotTaken))
    ensures NoOverlap(Commit(bs + [x], f, id).bookings)
  {
    assert x in bs + [x];
  }

  /** A booking confirmed with a fresh id and then cancelled leaves the store exactly as before. */
  lemma CommitThenCancel(bs: seq<Booking>, f: Form, id: int)
    requires f.start.Some?
    requires ById(bs, id).None?
    requires Commit(bs, f, id).outcome.Success?
    ensures Cancel(Commit(bs, f, id).bookings, id) == bs
  {
    var rec := Commit(bs, f, id).outcome.value;
    FilterDropsOne(bs, rec, [], KeepOther(id));
    assert bs + [rec] + [] == bs + [rec];
    assert bs + [] == bs;
  }

  /** The total charged on confirm is the total quoted at review. */
  lemma ReviewedTotalIsCharged(bs: seq<Booking>, f: Form, id: int)
    requires Review(f).Success?
    requires Commit(bs, f, id).outcome.Success?
    ensures Commit(bs, f, id).outcome.value.total == Review(f).value
  {
  }

  /**
   * As written, the confirm step accepts a start the grid would not offer:
   * four hours from 22:00 on an empty store are booked.
   */
  lemma CommitSkipsClosingTime()
    ensures var f := Form("Asha", "2025-01-01", "5", None, 4, Some(22), None);
      && !RenderSlots([], f.date, f.turf, f.duration)[22 - 6].bookable
      && Commit([], f, 1).outcome.Success?
  {
  }

  /**
   * Review checks the untrimmed name but the record stores the trimmed one,
   * so a name of blanks passes review and is saved empty.
   */
  lemma BlankNameStoredEmpty()
    ensures var f := Form("  ", "2025-01-01", "7", Some(12), 1, Some(9), None);
      && Review(f).Success?
      && Commit([], f, 1).outcome.Success?
      && Commit([], f, 1).outcome.value.name == ""
  {
    assert Text.TrimStart("  ") == "" by {
      assert "  "[1..] == " ";
      assert Text.TrimStart(" ") == "" by {
        assert " "[1..] == "";
      }
    }
  }
}
