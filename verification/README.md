# Turf booking engine — a Dafny model

This project models the booking engine of a single-page sports-turf booking
widget (`script.js`). Users pick a date, a turf size ("5" or "7"-a-side) and a
duration. The widget shows which hourly start slots from 6:00 to 22:00 are free
and quotes a price with a peak-hour surcharge and an optional `TURF10` coupon.
On confirm it re-checks for a clash against the current bookings and appends
the new record. A table lists, filters and sorts the bookings, and a booking
can be cancelled by id.

Everything is modelled as pure functions over an immutable `Booking` datatype
and a `seq<Booking>` store:

- `Wrappers`: `Option` and `Result`.
- `Text`: `trim`, `toUpperCase`, `toLowerCase`, `includes`, code-point order of
  date strings, and decimal rendering of integers.
- `Seqs`: `filter` and `some`, and the pairwise properties that filtering keeps.
- `Intervals`: the half-open `overlaps` test.
- `Pricing`: `clamp`, `fmtTime`, `baseRate`, `isPeakHour`, `calcPrice`.
- `Store`: the booking record, the no-overlap invariant, the conflict test,
  `byId` and cancellation.
- `Availability`: the decision inside `renderSlots`.
- `Checkout`: coupon entry, the review step and the confirm (commit) step.
- `Listing`: the filters and the sort of `renderTable`.

The central invariant is `Store.NoOverlap`. It says no two records with the
same date and turf have intersecting `[start, start+duration)` intervals.
`Checkout.CommitPreservesNoOverlap` and `Store.CancelPreservesNoOverlap` prove
that confirm and cancel both keep it.

Prices are exact integers. The rate times the hours is a multiple of 40, so
the JavaScript product `rate * hours * 1.25 * 0.9` is always a whole number.
`Pricing.CalcPrice` computes it with integer arithmetic and proves the result
equals the real-number formula. So the final `Math.round` never changes it.

Behaviour worth noting, modelled as written:

- The comment at script.js:123 calls 22:00 the last start hour, and the grid
  offers every start up to `22 - (dur - 1)`. So a one-hour booking may start
  at 22:00 and end at 23:00 (`Availability.ClosingTimeExamples`).
- The confirm step re-checks overlap only. It does not re-check the
  closing-time bound (`Checkout.CommitSkipsClosingTime`).
- The review step tests the untrimmed name (script.js:201), while the record
  stores the trimmed one (script.js:228). So a name made only of
  blanks is stored empty (`Checkout.BlankNameStoredEmpty`).
- Reschedule only copies the record into the form (script.js:293-297) and does
  not remove it, so it is not modelled as a store operation.

## Model

| member | source | states |
|---|---|---|
| Pricing.Clamp | script.js:9 | the result lies in [lo, hi] when lo <= hi; it equals n inside the range, lo below it (or when hi < lo), and hi above it |
| Pricing.Hour12 | script.js:13 | the displayed hour is in 1..12 and congruent to h modulo 12 for every h >= -11, using JavaScript's truncating remainder |
| Pricing.FmtTime | script.js:11-15 | the label is the 12-hour clock hour in decimal without leading zeros (0 and 12 show as 12, 13 as 1), then ":00 ", then "AM" exactly when h < 12 and "PM" exactly when h >= 12 |
| Pricing.FmtTimeRoundTrip | script.js:11-15 | every hour 0..23 can be read back from its label, so the label loses nothing |
| Pricing.FmtTimeInjective | script.js:11-15 | two different hours of the day never share a label |
| Pricing.FmtTimeExamples | script.js:13 | 0 shows "12:00 AM", 12 shows "12:00 PM", 13 shows "1:00 PM", 22 shows "10:00 PM" |
| Pricing.BaseRate | script.js:17 | the hourly rate is 1200 exactly for the "7" turf and 800 for any other value; both are positive multiples of 40 |
| Pricing.IsPeakHour | script.js:18 | the peak hours are exactly the four starting at 18, 19, 20 and 21, all labelled PM |
| Pricing.AnyPeak | script.js:18-24 | the peak loop finds a peak exactly when some hour of [start, start+hours) lies in 18..21 |
| Pricing.PeakClosedForm | script.js:18-24 | the peak applies exactly when hours > 0, start <= 21 and start + hours > 18 |
| Pricing.CouponCaseInsensitive | script.js:27 | a code is recognised exactly when it spells TURF10 in any mix of upper and lower case |
| Pricing.CalcPrice | script.js:17-29 | peak iff an hour of the span is a peak hour; coupon applied iff the code matches, else null; total equals rate*hours*(1.25 if peak)*(0.9 if coupon) exactly, with rate 1200 for "7" and 800 otherwise; total >= 0 for hours >= 0 |
| Pricing.CouponEffect | script.js:25-28 | a recognised coupon makes the total exactly nine tenths of the undiscounted total; any other code gives the same result as no code |
| Pricing.CalcPriceExamples | script.js:20-29 | "5" at 17 for 2 hours costs 2000 with peak; "5" at 10 for 2 hours costs 1600; "7" at 9 for 1 hour with "turf10" costs 1080; an unknown code is ignored |
| Intervals.Overlaps | script.js:36-37 | when two intervals overlap both are non-empty and the later start is an hour of both; for non-empty intervals they overlap iff each starts before the other ends |
| Intervals.OverlapsSymmetric | script.js:36-37 | the overlap test gives the same answer with its two intervals swapped |
| Intervals.OverlapsIff | script.js:36-37 | for all integers, the intervals overlap iff both durations are positive and each starts before the other ends |
| Intervals.OverlapsShareHour | script.js:36-37 | the intervals overlap iff some integer hour lies in both |
| Intervals.OverlapsExamples | script.js:36-37 | [9,11) and [11,13) do not overlap; [9,11) and [10,12) do; an empty interval overlaps nothing |
| Seqs.Filter | script.js:291 | `filter` keeps exactly the elements satisfying the predicate, each with its original multiplicity |
| Seqs.Any | script.js:134 | `some` holds iff some element satisfies the predicate |
| Seqs.FilterPairwise | script.js:291 | any property of every ordered pair of a list still holds after filtering |
| Text.Trim | script.js:175 | the result is the middle part of the input left after removing white space at both ends, and it neither starts nor ends with white space |
| Text.ToUpper | script.js:175 | same length; each character is the input's with ASCII letters upper-cased, so no lower-case ASCII letter remains and the lower-cased forms agree |
| Text.ToLower | script.js:259 | same length; each character is the input's with ASCII letters lower-cased, so no upper-case ASCII letter remains and the upper-cased forms agree |
| Text.Contains | script.js:263 | `includes` holds iff the substring occurs at some offset |
| Text.Compare | script.js:264 | the sign of the date comparison: zero exactly for equal dates, negative exactly when the first date sorts first, positive exactly when the second does |
| Text.LexLessTotal | script.js:264 | two different date strings are always ordered one way or the other |
| Text.LexLessTransitive | script.js:264 | the date order is transitive |
| Text.ParseNatToString | script.js:14 | reading back the decimal digits of a number gives the number |
| Store.DayBooks | script.js:133 | the same-day list holds exactly the records for the chosen date and turf |
| Store.Conflict | script.js:133-134 | a conflict exists iff some record with the same date and turf overlaps [start, start+dur) |
| Store.ById | script.js:283 | `find` returns nothing iff no record carries the id; otherwise it returns the first record that does |
| Store.Cancel | script.js:291 | the result holds exactly the records whose id differs from the cancelled one |
| Store.CancelAbsent | script.js:287-291 | when `byId` finds nothing, the handler's early return and the filter both leave the store unchanged |
| Store.CancelRemovesOne | script.js:291 | with unique ids, cancelling the record at position k gives the store with just that record removed, order kept, length one less |
| Store.CancelPreservesNoOverlap | script.js:291 | cancelling keeps the no-overlap invariant |
| Store.CancelPreservesUniqueIds | script.js:291 | cancelling keeps ids unique |
| Store.NoOverlapBothWays | script.js:133-134 | under the invariant, no record clashes with any other record, in either order |
| Availability.RenderSlots | script.js:113-136 | no slots without a date or a turf; otherwise the hours 6..22 in order, each bookable iff it ends by 23:00 and no same-date, same-turf record overlaps it |
| Availability.RenderSlotsOnlySameCourt | script.js:133 | two stores with the same records for the chosen date and turf render the same grid |
| Availability.OtherCourtIrrelevant | script.js:133 | adding a booking for another date or turf never changes the grid |
| Availability.RenderSlotsMonotone | script.js:130-135 | a store holding more same-date, same-turf records offers no hour that a smaller one disables |
| Availability.AddingNeverFrees | script.js:130-135 | adding a booking never makes a disabled hour bookable |
| Availability.CancelFreesSlot | script.js:124-135 | under the invariant, after cancelling a booking its start is offered again for its date, turf and duration |
| Availability.ClosingTimeExamples | script.js:123-130 | for 4 hours, 20:00 is disabled and 19:00 offered; for 1 hour, 22:00 is offered |
| Availability.ExistingBookingExample | script.js:130-135 | next to a 2-hour booking at 10:00, 2-hour starts at 9:00 and 11:00 are disabled and 8:00 and 12:00 are offered |
| Checkout.ApplyCoupon | script.js:174-181 | a blank entry gives "Enter a coupon"; the trimmed code is accepted iff it spells TURF10 in any case; a refused entry keeps the applied coupon, an accepted one sets it to TURF10 |
| Checkout.AcceptedCouponIsHonoured | script.js:174-181 | a coupon the button accepts is recognised by the price calculation and takes exactly a tenth off |
| Checkout.Review | script.js:199-204 | review fails iff the name, date or turf is empty or no start is selected; otherwise it quotes the calculated total |
| Checkout.NewRecord | script.js:226-236 | the record carries the id, date, turf, start and duration of the form; the name is the trimmed input, so it has no surrounding white space; players are the entered count (10 for an empty field) clamped to [2,20], so counts below 2 become 2 and above 20 become 20; the coupon is recorded, as TURF10, exactly when the form's coupon earns the discount; the total is the calculated one |
| Checkout.Commit | script.js:218-237 | refused with the store unchanged iff a same-date, same-turf record overlaps the selection; otherwise exactly one record is appended with the form's fields, players clamped to [2,20], and the calculated total and coupon |
| Checkout.CommitPreservesNoOverlap | script.js:220-237 | the confirm step keeps the no-overlap invariant |
| Checkout.CommitPreservesUniqueIds | script.js:226-237 | with an id no record carries yet, the confirm step keeps ids unique |
| Checkout.SlotAgreesWithCommit | script.js:218-223 | on an unchanged store, an hour is offered iff it ends by 23:00 and the confirm step accepts it |
| Checkout.StaleSelectionRejected | script.js:220-223 | when a clashing record was added after the grid was drawn, confirm is refused and the store keeps the invariant |
| Checkout.CommitThenCancel | script.js:226-237 | confirming with a fresh id and then cancelling that id gives back the original store |
| Checkout.ReviewedTotalIsCharged | script.js:225-234 | the total stored on confirm is the total quoted at review |
| Checkout.CommitSkipsClosingTime | script.js:220-223 | the confirm step accepts 4 hours from 22:00 on an empty store, an hour the grid does not offer |
| Checkout.BlankNameStoredEmpty | script.js:228 | a name made only of blanks passes review and is stored as the empty string |
| Listing.Before | script.js:264 | a record goes first exactly when the comparator (date comparison, else start difference) is negative; then its date differs or its start is earlier |
| Listing.MatchesTurf | script.js:262 | an empty turf filter keeps every record; otherwise a record is kept iff its turf equals the filter |
| Listing.MatchesQuery | script.js:263 | an empty search keeps every record; otherwise a record is kept iff the search occurs at some offset of its lower-cased name or of its date |
| Listing.InOrderTransitive | script.js:264 | the date-then-start ordering is transitive |
| Listing.Insert | script.js:264 | inserting into a sorted list keeps it sorted and adds exactly the one record |
| Listing.SortByDateStart | script.js:264 | the result is sorted by date and then start hour and is a permutation of the input |
| Listing.InsertStable | script.js:264 | among records with any one date and start, the inserted record comes first and the others keep their order |
| Listing.SortStable | script.js:264 | the sort is stable: records with the same date and start come out in the order they went in |
| Listing.RenderTable | script.js:257-264 | the rows are sorted by date and then start, and each record appears as often as it is stored if it passes the turf filter and the trimmed, lower-cased search, and not at all otherwise; Listing.TableKeepsStoredOrder gives the order of rows with equal date and start |
| Listing.ListedIff | script.js:262-263 | a record is listed iff it is stored and passes both filters |
| Listing.TableKeepsStoredOrder | script.js:261-264 | rows with the same date and start are listed in the order they are stored, among those passing both filters |
| Listing.UnfilteredTableListsAll | script.js:259-264 | with no turf filter and an empty search, the table lists every stored record |

## Left out

- DOM querying, rendering and event wiring (`$`, `$$`, buttons, `innerHTML`, the modal, `updateSummary`, `updatePrice`): presentation only.
- `localStorage` load and save, JSON parsing, and the JSON export (script.js:31-32, 302-306): I/O. The store is a value passed in and returned.
- `toast` timers, the testimonial slider, the theme toggle, the mobile menu and the hero video (script.js:34, 49-94, 248-251): browser behaviour.
- `Date.now()` ids and `todayStr()`: the id is a parameter of `Checkout.Commit`. No minimum date is enforced by the core.
- `parseInt` and `Number` parsing of form fields: integers are inputs. A field that parses to `NaN` is not modelled. An empty players field is modelled as `None` and counts as 10.
- The reschedule prefill (script.js:293-297): it only copies a record into the form.
- The `confirm()` dialog before cancelling: the model covers the path where the user agrees.
- `toLocaleString('en-IN')` currency formatting: the total is kept as an integer.
- Floating point: the price is computed exactly. This is faithful because every intermediate value is a whole number.
- Text.ToUpper: maps ASCII letters only, while JavaScript maps all of Unicode. No non-ASCII string upper-cases to TURF10, so coupon matching is unaffected.
- Text.ToLower: maps ASCII letters only. A search or a name using non-ASCII letters may match differently than in a browser.
- Text.LexLess: dates are compared by code points, not with `localeCompare`. The two agree on ISO `YYYY-MM-DD` strings. Code-point order also differs from UTF-16 code-unit order above U+FFFF, which no date string contains.
- Text.Compare: gives only the sign of `localeCompare`, in code-point order, for the same reason as Text.LexLess.
- Listing.SortByDateStart: stability is not in its own contract. It is proved separately by Listing.SortStable, and for the table by Listing.TableKeepsStoredOrder.
- Checkout.Commit: requires a selected start hour. The confirm button is reachable only after the review step, which refuses a missing start.
