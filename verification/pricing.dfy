/**
 * Time and price utilities of the booking script: `clamp`, `fmtTime`,
 * `baseRate`, `isPeakHour` and `calcPrice`.
 */
module Pricing {
  import opened Wrappers
  import Text
  import opened Intervals

  /** `clamp`: `n` limited to `hi` from above, then to `lo` from below. */
  function Clamp(n: int, lo: int, hi: int): (r: int)
    ensures lo <= hi ==> lo <= r <= hi
    ensures lo <= n <= hi ==> r == n
    ensures n < lo || hi < lo ==> r == lo
    ensures lo <= hi < n ==> r == hi
  {
    Max(lo, Min(hi, n))
  }

  /** JavaScript's `%`: the remainder takes the sign of the dividend. */
  function TruncRem(a: int, m: int): int
    requires m > 0
  {
    if a >= 0 then a % m else -((-a) % m)
  }

  /**
   * The hour shown on a 12-hour clock, computed with JavaScript's
   * remainder: from 1 to 12 and congruent to `h` modulo 12 for every hour of
   * the day; hours below -11 would show 1 or less.
   */
  function Hour12(h: int): (r: int)
    ensures h >= -11 ==> 1 <= r <= 12 && r % 12 == h % 12
    ensures h < -11 ==> -10 <= r <= 1
  {
    TruncRem(h + 11, 12) + 1
  }

  function Meridiem(h: int): string {
    if h < 12 then "AM" else "PM"
  }

  /**
   * `fmtTime`: the label "<hour>:00 AM" or "<hour>:00 PM", where the hour is
   * the 12-hour clock hour written without leading zeros, and "AM" stands
   * exactly before noon.
   */
  function FmtTime(h: int): (r: string)
    ensures |r| >= 7
    ensures h >= -11 ==> r[..|r| - 6] == Text.NatToString(Hour12(h))
    ensures r[|r| - 6..|r| - 2] == ":00 "
    ensures r[|r| - 2..] == "AM" <==> h < 12
    ensures r[|r| - 2..] == "PM" <==> h >= 12
  {
    Text.IntToString(Hour12(h)) + ":00 " + Meridiem(h)
  }

  /** Reads a 12-hour label back to the hour of the day it names. */
  function ParseTime(s: string): Option<int> {
    if |s| < 7 || s[|s| - 6..|s| - 2] != ":00 " then None
    else
      var suffix := s[|s| - 2..];
      match Text.ParseNat(s[..|s| - 6])
      case Some(n) =>
        if 1 <= n <= 12 && (suffix == "AM" || suffix == "PM")
        then Some(n % 12 + (if suffix == "PM" then 12 else 0))
        else None
      case None => None
  }

  /** Every hour of the day can be read back from its label. */
  lemma FmtTimeRoundTrip(h: int)
    requires 0 <= h < 24
    ensures ParseTime(FmtTime(h)) == Some(h)
  {
    var digits := Text.NatToString(Hour12(h));
    var s := FmtTime(h);
    assert s == digits + ":00 " + Meridiem(h);
    assert s[..|s| - 6] == digits;
    assert s[|s| - 2..] == Meridiem(h);
    Text.ParseNatToString(Hour12(h));
  }

  /** Different hours of the day get different labels. */
  lemma FmtTimeInjective(h1: int, h2: int)
    requires 0 <= h1 < 24 && 0 <= h2 < 24
    requires FmtTime(h1) == FmtTime(h2)
    ensures h1 == h2
  {
    FmtTimeRoundTrip(h1);
    FmtTimeRoundTrip(h2);
  }

  /** A label is its hour's digits, then ":00 ", then the half of the day. */
  lemma FmtTimeLabel(h: int, digits: string)
    requires 0 <= h < 24 && Text.NatToString(Hour12(h)) == digits
    ensures FmtTime(h) == digits + ":00 " + Meridiem(h)
  {
  }

  /** The decimal numerals the examples below need. */
  lemma Numerals()
    ensures Text.NatToString(1) == "1"
    ensures Text.NatToString(10) == "10"
    ensures Text.NatToString(12) == "12"
  {
    assert Text.NatToString(10) == Text.NatToString(1) + "0";
    assert Text.NatToString(12) == Text.NatToString(1) + "2";
  }

  /** Midnight and noon show as 12; the afternoon restarts at 1. */
  lemma FmtTimeExamples()
    ensures FmtTime(0) == "12:00 AM"
    ensures FmtTime(12) == "12:00 PM"
    ensures FmtTime(13) == "1:00 PM"
    ensures FmtTime(22) == "10:00 PM"
  {
    Numerals();
    FmtTimeLabel(0, "12");
    FmtTimeLabel(12, "12");
    FmtTimeLabel(13, "1");
    FmtTimeLabel(22, "10");
  }

  /**
   * `baseRate`: 1200 an hour for the 7-a-side turf, 800 for anything else.
   * Both rates are multiples of 40, which keeps every price a whole number.
   */
  function BaseRate(size: string): (r: int)
    ensures r == 1200 <==> size == "7"
    ensures r != 1200 ==> r == 800
    ensures r > 0 && r % 40 == 0
  {
    if size == "7" then 1200 else 800
  }

  /** `isPeakHour`: the four hours that start from 6 PM to 9 PM, all of them afternoon hours. */
  predicate IsPeakHour(h: int): (r: bool)
    ensures r <==> Within(h, 18, 4)
    ensures r ==> Meridiem(h) == "PM"
  {
    18 <= h <= 21
  }

  /** The loop of `calcPrice`: some hour of `[start, start+hours)` is a peak hour. */
  function AnyPeak(start: int, hours: int): (r: bool)
    ensures r <==> exists h :: Within(h, start, hours) && IsPeakHour(h)
    decreases hours
  {
    if hours <= 0 then false
    else if IsPeakHour(start) then
      assert Within(start, start, hours);
      true
    else
      var r := AnyPeak(start + 1, hours - 1);
      assert forall h :: Within(h, start, hours) && h != start ==> Within(h, start + 1, hours - 1);
      r
  }

  /** The peak window is touched exactly when the span starts by 21:00 and ends after 18:00. */
  lemma PeakClosedForm(start: int, hours: int)
    ensures AnyPeak(start, hours) <==> 0 < hours && start <= 21 && 18 < start + hours
  {
    if 0 < hours && start <= 21 && 18 < start + hours {
      var h := Max(start, 18);
      assert Within(h, start, hours) && IsPeakHour(h);
    }
  }

  const CouponCode: string := "TURF10"

  /** A coupon code is present, non-empty, and upper-cases to TURF10. */
  predicate CouponMatches(code: Option<string>) {
    code.Some? && code.value != "" && Text.ToUpper(code.value) == CouponCode
  }

  /** The coupon is recognised in any mix of upper and lower case, and in no other spelling. */
  lemma CouponCaseInsensitive(s: string)
    ensures CouponMatches(Some(s)) <==>
      |s| == |CouponCode| &&
      forall i :: 0 <= i < |s| ==> s[i] == CouponCode[i] || s[i] == Text.LowerChar(CouponCode[i])
  {
    if |s| == |CouponCode| {
      forall i | 0 <= i < |s|
        ensures Text.UpperChar(s[i]) == CouponCode[i] <==>
          s[i] == CouponCode[i] || s[i] == Text.LowerChar(CouponCode[i])
      {
      }
      if forall i :: 0 <= i < |s| ==> s[i] == CouponCode[i] || s[i] == Text.LowerChar(CouponCode[i]) {
        assert Text.ToUpper(s) == CouponCode;
      }
    }
  }

  /** What `calcPrice` returns: the rounded total, whether the peak rate applied, and the coupon applied. */
  datatype Price = Price(total: int, peak: bool, applied: Option<string>)

  /** The rate in units of 40: every price `calcPrice` can produce is a whole multiple of it. */
  lemma ExactArithmetic(u: int)
    ensures 40 * u * 5 / 4 == 50 * u
    ensures 40 * u * 9 / 10 == 36 * u
    ensures 50 * u * 9 / 10 == 45 * u
    ensures (50 * u) as real == (40 * u) as real * 1.25
    ensures (36 * u) as real == (40 * u) as real * 0.9
    ensures (45 * u) as real == (40 * u) as real * 1.25 * 0.9
  {
  }

  /**
   * `calcPrice`. The total is the exact
   * value of the rate times the hours, times 1.25 at peak and 0.9 with the coupon, so the
   * final `Math.round` never changes it.
   */
  function CalcPrice(size: string, start: int, hours: int, coupon: Option<string>): (r: Price)
    ensures r.peak <==> exists h :: Within(h, start, hours) && IsPeakHour(h)
    ensures r.applied == if CouponMatches(coupon) then Some(CouponCode) else None
    ensures r.total as real ==
      (BaseRate(size) * hours) as real
      * (if r.peak then 1.25 else 1.0)
      * (if r.applied.Some? then 0.9 else 1.0)
    ensures hours >= 0 ==> r.total >= 0
  {
    var base := BaseRate(size) * hours;
    var peak := AnyPeak(start, hours);
    var peaked := if peak then base * 5 / 4 else base;
    var applies := CouponMatches(coupon);
    var u := BaseRate(size) / 40 * hours;
    assert base == 40 * u;
    ExactArithmetic(u);
    Price(if applies then peaked * 9 / 10 else peaked, peak, if applies then Some(CouponCode) else None)
  }

  /** A recognised coupon takes exactly a tenth off; any other code changes nothing. */
  lemma CouponEffect(size: string, start: int, hours: int, coupon: Option<string>)
    ensures CouponMatches(coupon) ==>
      CalcPrice(size, start, hours, coupon).total * 10 == CalcPrice(size, start, hours, None).total * 9
    ensures !CouponMatches(coupon) ==> CalcPrice(size, start, hours, coupon) == CalcPrice(size, start, hours, None)
  {
    var u := BaseRate(size) / 40 * hours;
    assert BaseRate(size) * hours == 40 * u;
    ExactArithmetic(u);
  }

  /** The worked prices: peak spill-over, an off-peak booking, and a lower-case coupon. */
  lemma CalcPriceExamples()
    ensures CalcPrice("5", 17, 2, None) == Price(2000, true, None)
    ensures CalcPrice("5", 10, 2, None) == Price(1600, false, None)
    ensures CalcPrice("7", 9, 1, Some("turf10")) == Price(1080, false, Some("TURF10"))
    ensures CalcPrice("7", 9, 1, Some("SAVE20")) == Price(1200, false, None)
  {
    PeakClosedForm(17, 2);
    PeakClosedForm(10, 2);
    PeakClosedForm(9, 1);
    assert Text.ToUpper("turf10") == CouponCode;
    assert Text.ToUpper("SAVE20")[0] == 'S';
  }
}
