# zimmerangebote: stay selection and query templating, modelled in Dafny

zimmerangebote drives a hotel booking calendar in a headless browser. It
picks a one-night stay some months ahead and then queries the room offers.
This project models the three parts of it that do not depend on the
browser:

- **Stay selection** (`_is_day_available`, `select_stay` in
  `src/zimmerangebote/get_offers.py`). It keeps the day cells whose parent
  class ends with `state-aa` and stable-sorts them by day number. It then
  scans the neighbouring pairs and returns the first pair whose day numbers
  are consecutive: the left cell, and the date spelt by the right cell's
  attributes. Building that date raises `OverflowError` when an attribute
  lies outside the C `int` range (Python's `date` reads its arguments as
  C `int`s), and `ValueError` when the attributes fit but name no date.
- **Template filling** (`fill_scheme_string` in `src/zimmerangebote/utils.py`).
  The year/month/day triple, with 2022/12/1 for missing parts, must fit
  C `int`s, or `OverflowError` is raised, and must be a real date, or
  `ValueError` is raised. Each supplied component's mark
  (`{year}`, `{month}`, `{day}`, checked in that order) must occur in the
  scheme, or `KeyError` is raised for the first one that does not. Every
  occurrence of the mark is replaced by the component's decimal text.
- **Sliding windows** (`get_ngrams` in `src/zimmerangebote/utils.py`). This
  is `zip` over `tee` copies of the input, where copy `i` is advanced by
  `islice(it, i, step)`.

Files (each holds one module):

| file | module | models |
|---|---|---|
| `errors.dfy` | `Errors` | the three exceptions (`ValueError`, `KeyError` with the mark it names, `OverflowError`), `Result`, `Option` |
| `calendar.dfy` | `Calendar` | the checks made by Python's `date(year, month, day)`: C `int` range, then calendar date |
| `strings.dfy` | `Strings` | `endswith`, `in`, `str.replace`, `str(int)` and `int(str)` |
| `ngrams.dfy` | `Ngrams` | `get_ngrams` |
| `schemes.dfy` | `Schemes` | `fill_scheme_string` |
| `settings.dfy` | `Settings` | the scheme literals and the availability marker |
| `offers.dfy` | `Offers` | `_is_day_available`, `select_stay` |
| `call_sites.dfy` | `CallSites` | the three `fill_scheme_string` calls in `get_offers.py` |

A day cell is a value `DayCell(day, month, year, parentClass)`. It stands
for the browser element together with the attributes the scan reads from
it. Both `select_stay` and `fill_scheme_string` can raise. Each is
therefore modelled as a function to `Result`, and the modelled code's loop
is a method proved equal to that function:

- `Offers.ScanForStay` is the `for` loop over the bigrams. It uses
  `Ngrams.GetNgrams` just as the source does.
- `Schemes.FillSchemeString` is the loop over the three marks. That loop
  looks for each mark in the scheme as rebound by the replacements before
  it. The specification `Schemes.FillScheme` looks in the original scheme
  instead. The two agree because replacing one mark by digits never creates
  or removes another mark (`Schemes.ReplaceKeepsOtherMark`).

Facts about the code that the model keeps, although they may surprise a
reader:

- The departure is not computed as the arrival date plus one day. The code
  builds it from the right-hand cell's own attributes
  (`get_offers.py:108-112`), and adjacency compares day numbers only
  (`get_offers.py:107`). A 31 → 1 month change is therefore never a stay,
  and an invalid right-hand date raises.
- `fill_scheme_string` raises `KeyError` only for a SUPPLIED component
  whose mark is absent (`utils.py:75-79`). The mark of a component that is
  not supplied stays in the output, and other brace text is never looked
  at.
- The third argument of `get_ngrams`, documented as a step size
  (`utils.py:23`), is passed as islice's stop, so it truncates the input
  (`Ngrams.NgramsStopTruncates`, `Ngrams.NgramsStepIsNotStride`).
- When day numbers repeat, the outcome depends on the input order. The
  sort is stable and keys on the day number alone (`get_offers.py:100-103`),
  so among cells with the same number the input order decides which one
  is paired. The open cells 11/3, 12/3, 12/13 (day/month) give a stay; the
  same cells ordered 11/3, 12/13, 12/3 raise `ValueError`
  (`Offers.ReorderChangesOutcome`). With two open cells on day 11, the
  arrival is the later of them, and the departure comes from the first
  cell of day 12 (`Offers.DuplicateArrivalPicksLast`). In general the
  arrival is the LAST available input cell of the arrival day, and the
  departure is the date of the FIRST available input cell of the next day
  (`Offers.StayPicksLastArrivalFirstDeparture`).

## Model

| member | source | states |
|---|---|---|
| `Offers.IsDayAvailable` | src/zimmerangebote/get_offers.py:83-86 | defines `_is_day_available`: the parent's class ends with the availability marker |
| `Offers.AvailableDays` | src/zimmerangebote/get_offers.py:101 | defines `filter(_is_day_available, days)`: the available cells in input order |
| `Offers.StayFrom` | src/zimmerangebote/get_offers.py:104-115 | defines the scan's outcome on the ordered cells: `None`, the first consecutive pair's stay, or the exception `date(...)` raises for its right cell |
| `Offers.StayOf` | src/zimmerangebote/get_offers.py:89-115 | defines `select_stay`'s outcome: the scan of the available cells sorted by day |
| `Offers.AvailabilityIsSuffixTest` | src/zimmerangebote/get_offers.py:83-86 | a cell is available when its parent class ENDS with `state-aa`; a class that holds the marker elsewhere is not available |
| `Offers.AvailableDaysMembers` | src/zimmerangebote/get_offers.py:100-101 | the filtered cells are exactly the input cells that are available |
| `Offers.InsertByDay` | src/zimmerangebote/get_offers.py:100-103 | inserting into a run ordered by day keeps it ordered and adds exactly that cell |
| `Offers.SortByDay` | src/zimmerangebote/get_offers.py:100-103 | the sort by day number yields an ordered permutation of its input |
| `Offers.SortIsStable` | src/zimmerangebote/get_offers.py:100-103 | for every day number, the cells with that number keep their input order (`sorted` is stable) |
| `Offers.SortOfSortedIsIdentity` | src/zimmerangebote/get_offers.py:100-103 | sorting a run already ordered by day changes nothing |
| `Offers.AllAvailableKept` | src/zimmerangebote/get_offers.py:100-101 | filtering a run of available cells keeps all of them |
| `Offers.FirstAdjacent` | src/zimmerangebote/get_offers.py:105-107 | the index found holds a consecutive pair and no earlier index does; none is found exactly when no neighbouring pair is consecutive |
| `Offers.ScanForStay` | src/zimmerangebote/get_offers.py:104-115 | the bigram loop with its `break` returns the first consecutive pair, with the departure date built from the right cell, or raises what building the right-cell date raises (`ValueError` or `OverflowError`) |
| `Offers.SelectStay` | src/zimmerangebote/get_offers.py:89-115 | `select_stay` is the scan over the available cells sorted by day |
| `Offers.SortedFirstAdjacent` | src/zimmerangebote/get_offers.py:100-114 | in a sorted run the first consecutive pair starts at the least day d with d and d+1 both present, and there is none exactly when no such d exists |
| `Offers.NoStayIffNoArrivalDay` | src/zimmerangebote/get_offers.py:100-115 | `None` exactly when no two available day numbers are consecutive |
| `Offers.FewerThanTwoAvailableNoStay` | src/zimmerangebote/get_offers.py:100-115 | fewer than two available cells give `None` |
| `Offers.StayIsEarliestArrival` | src/zimmerangebote/get_offers.py:100-114 | a returned stay's arrival is an available input cell on the least arrival day; the departure day is arrival day + 1; the departure is a valid date spelt by an available input cell |
| `Offers.StayPicksLastArrivalFirstDeparture` | src/zimmerangebote/get_offers.py:100-114 | a returned stay arrives on the LAST available input cell of its arrival day and departs on the date of the FIRST available input cell of the next day |
| `Offers.ScanPicksPairEnds` | src/zimmerangebote/get_offers.py:104-114 | on an ordered run the scan takes the last cell of the arrival day and the date of the first cell of the next day |
| `Offers.AdjacentPairEnds` | src/zimmerangebote/get_offers.py:104-107 | in an ordered run a consecutive pair is the last cell of its day followed by the first cell of the next day |
| `Offers.StayFromError` | src/zimmerangebote/get_offers.py:107-112 | the scan raises only when the right cell of the first consecutive pair names no date: `ValueError` when its attributes fit C `int`s, `OverflowError` otherwise |
| `Offers.FirstPairIsLeastArrival` | src/zimmerangebote/get_offers.py:100-107 | the first consecutive pair of the ordered available cells starts on the least arrival day of the input |
| `Offers.StayErrorIsInvalidDeparture` | src/zimmerangebote/get_offers.py:107-112 | a raise comes from an available cell one day after the least arrival day whose attributes name no date: `ValueError` when they fit C `int`s, `OverflowError` otherwise |
| `Offers.UnavailableCellIgnored` | src/zimmerangebote/get_offers.py:100-102 | inserting or removing an unavailable cell anywhere leaves the outcome unchanged |
| `Offers.UnavailableHeadIgnored` | src/zimmerangebote/get_offers.py:100-102 | a leading unavailable cell may be dropped without changing the outcome |
| `Offers.ArrivalDayIgnoresOrder` | src/zimmerangebote/get_offers.py:100-103 | any reordering of the input keeps whether `None` is returned and, when both orders return a stay, the arrival day number |
| `Offers.EarliestPairScenario` | src/zimmerangebote/get_offers.py:100-114 | days 10 (closed), 11, 12, 15 (open) give arrival 11 and departure 12 |
| `Offers.NonConsecutiveScenario` | src/zimmerangebote/get_offers.py:104-115 | open days 3 and 7 alone give `None` |
| `Offers.MonthRolloverScenario` | src/zimmerangebote/get_offers.py:107-112 | open January 31 and February 1 give `None`: adjacency compares day numbers only |
| `Offers.InvalidDepartureScenario` | src/zimmerangebote/get_offers.py:107-112 | open February 28 and 29 of 2023 raise `ValueError` |
| `Offers.OverflowDepartureScenario` | src/zimmerangebote/get_offers.py:107-112 | open days 2^31-1 and 2^31 raise `OverflowError`, not `ValueError` |
| `Offers.ReorderChangesOutcome` | src/zimmerangebote/get_offers.py:100-112 | the same three open cells 11/3, 12/3, 12/13 give a stay in one order and raise `ValueError` in another |
| `Offers.DuplicateArrivalPicksLast` | src/zimmerangebote/get_offers.py:100-114 | with open cells 11/3, 11/4, 12/5, 12/6 the arrival is the last cell of day 11 and the departure May 12, from the first cell of day 12 |
| `Offers.OpenAndClosed` | src/zimmerangebote/settings.py:32 | a class ending in `state-aa` is available, one ending in `state-na` is not |
| `Ngrams.GetNgrams` | src/zimmerangebote/utils.py:12-25 | defines `get_ngrams`: `ValueError` for a negative length, or a negative third argument once a copy is sliced; otherwise `zip` of the `islice`d copies |
| `Ngrams.Islice` | src/zimmerangebote/utils.py:25 | `islice(it, start, stop)` over a finite input yields exactly the slice from `start` to `min(stop, len)` |
| `Ngrams.Zip` | src/zimmerangebote/utils.py:25 | `zip` yields as many rows as its shortest column, row k holding item k of every column; no columns give no rows |
| `Ngrams.ZipOfShiftedCopies` | src/zimmerangebote/utils.py:24-25 | zipping n copies of the input, copy i advanced by i, yields the windows of length n |
| `Ngrams.NgramsAreWindows` | src/zimmerangebote/utils.py:12-25 | with no third argument and n ≥ 1 the result is the max(0, len-n+1) windows `xs[k..k+n]` |
| `Ngrams.NgramsOfLengthZero` | src/zimmerangebote/utils.py:25 | length 0 gives no n-grams, whatever the third argument |
| `Ngrams.NgramsStopTruncates` | src/zimmerangebote/utils.py:12-25 | a third argument s ≥ 0 gives the n-grams of the first s elements |
| `Ngrams.NgramsStepIsNotStride` | src/zimmerangebote/utils.py:23-25 | bigrams of 1..5 with third argument 2 are just `[[1, 2]]`, not a stride of 2 |
| `Ngrams.NgramsErrors` | src/zimmerangebote/utils.py:25 | `ValueError` exactly for a negative length, or a negative third argument with length ≥ 1 |
| `Schemes.FillScheme` | src/zimmerangebote/utils.py:40-81 | defines `fill_scheme_string`'s outcome on the original scheme: `OverflowError`, `ValueError`, `KeyError` for the first missing supplied mark, or the filled scheme |
| `Schemes.FirstMissing` | src/zimmerangebote/utils.py:74-79 | the position found is the first one, in the order year, month, day, whose component is supplied and whose mark the scheme lacks; none is found exactly when no such position exists |
| `Schemes.FillSchemeString` | src/zimmerangebote/utils.py:40-81 | the loop that checks each mark on the rebound scheme returns or raises exactly what the specification stated on the original scheme gives |
| `Schemes.FillWithNothingIsIdentity` | src/zimmerangebote/utils.py:60-62 | with no component supplied the scheme is returned unchanged |
| `Schemes.FillValueErrorIffInvalidDate` | src/zimmerangebote/utils.py:69-72 | `ValueError` exactly when the triple with defaults 2022/12/1 fits C `int`s but is no date, whatever the scheme |
| `Schemes.FillOverflowErrorIffOutOfRange` | src/zimmerangebote/utils.py:69-72 | `OverflowError` exactly when a component of the defaulted triple lies outside the C `int` range, whatever the scheme |
| `Schemes.FillOverflowExample` | src/zimmerangebote/utils.py:69-72 | year 2^31 raises `OverflowError` |
| `Schemes.FillKeyErrorIffMarkMissing` | src/zimmerangebote/utils.py:74-79 | `KeyError` exactly when the date is valid and a supplied component's mark is absent from the scheme |
| `Schemes.FillKeyErrorNamesFirstMissing` | src/zimmerangebote/utils.py:74-79 | `KeyError` names mark k exactly when the date is valid, component k is supplied, its mark is absent, and every earlier supplied mark is present |
| `Schemes.FilledMarks` | src/zimmerangebote/utils.py:75-80 | after each step, the marks replaced so far are gone and every other mark occurs exactly as in the scheme |
| `Schemes.FillSuccessMarks` | src/zimmerangebote/utils.py:75-81 | on success no supplied mark is left, and an unsupplied component's mark occurs exactly when it occurred in the scheme |
| `Schemes.FillYearOnlyExample` | src/zimmerangebote/utils.py:75-81 | `"{year}-{month}"` with year 2024 gives `"2024-{month}"` |
| `Schemes.FillMissingDayExample` | src/zimmerangebote/utils.py:76-79 | `"{year}-{month}"` with day 1 raises `KeyError` for `{day}` |
| `Schemes.FillReportsYearBeforeDayExample` | src/zimmerangebote/utils.py:74-79 | `"{month}"` with year 2024 and day 1 lacks `{year}` and `{day}`; the `KeyError` names `{year}` |
| `Schemes.FillReportsMonthExample` | src/zimmerangebote/utils.py:74-79 | `"{year}"` with month 1 and day 1 raises `KeyError` for `{month}` |
| `Schemes.FillLeapDayWithoutYearExample` | src/zimmerangebote/utils.py:69-72 | month 2, day 29 without a year raises `ValueError`, whatever the scheme: 2022 is no leap year |
| `Schemes.ReplaceKeepsOtherMark` | src/zimmerangebote/utils.py:80 | replacing one mark by digits neither creates nor removes an occurrence of another mark |
| `Schemes.ReplaceRemovesMark` | src/zimmerangebote/utils.py:80 | after replacing a mark by digits the mark no longer occurs |
| `Schemes.DecimalIsInert` | src/zimmerangebote/utils.py:80 | `str(n)` consists of digits and a minus sign only |
| `Schemes.MarksAreDistinctMarks` | src/zimmerangebote/utils.py:74 | the three marks are brace-opened words with different first letters |
| `Strings.EndsWith` | src/zimmerangebote/get_offers.py:86 | defines `str.endswith` |
| `Strings.Contains` | src/zimmerangebote/utils.py:77 | defines the `in` test on strings, scanning start positions left to right |
| `Strings.Replace` | src/zimmerangebote/utils.py:80 | defines `str.replace`: every non-overlapping occurrence, left to right, is replaced |
| `Strings.Decimal` | src/zimmerangebote/utils.py:80 | `str(n)` is an integer literal: an optional minus sign and digits |
| `Strings.ContainsIffOccurs` | src/zimmerangebote/utils.py:77 | the `in` test holds exactly when the mark occurs at some position |
| `Strings.ReplaceAbsentIsIdentity` | src/zimmerangebote/utils.py:80 | `replace` with a pattern that does not occur returns the string unchanged |
| `Strings.DecimalRoundTrip` | src/zimmerangebote/utils.py:80 | `int(str(n)) == n` for every integer |
| `Calendar.DaysInMonth` | src/zimmerangebote/utils.py:72 | a month has 28 to 31 days; February has 29 exactly in leap years |
| `Calendar.MakeDate` | src/zimmerangebote/utils.py:72 | defines `date(year, month, day)`: `OverflowError` outside the C `int` range, `ValueError` for no date, else the date |
| `Calendar.MakeDateOutcomes` | src/zimmerangebote/utils.py:72 | `date(...)` succeeds exactly on a valid date and returns it; `OverflowError` exactly when a component is outside the C `int` range; `ValueError` exactly when all fit but name no date |
| `Calendar.ValidDateFitsCInts` | src/zimmerangebote/utils.py:72 | every valid date's components fit C `int`s |
| `CallSites.DepartureSchemeHasAllMarks` | src/zimmerangebote/settings.py:19-21 | the departure scheme holds `{year}`, `{month}` and `{day}` |
| `CallSites.AjaxMonthSchemeHasYearAndMonth` | src/zimmerangebote/settings.py:12 | the month-link scheme holds `{year}` and `{month}` |
| `CallSites.CalendarDaySchemeHasYearAndMonth` | src/zimmerangebote/settings.py:15-16 | the day-cell scheme holds `{year}` and `{month}` |
| `CallSites.DepartureFillNeverKeyError` | src/zimmerangebote/get_offers.py:146-151 | filling the departure scheme never raises `KeyError`; a valid date fills it with no mark left |
| `CallSites.SelectedStayFillsDeparture` | src/zimmerangebote/get_offers.py:146-151 | every departure `select_stay` returns fills the departure scheme without error |
| `CallSites.MonthLinkFillNeverKeyError` | src/zimmerangebote/get_offers.py:186-190 | filling the month-link scheme with year and month never raises `KeyError`; a valid month fills both marks |
| `CallSites.CalendarDaysFillNeverKeyError` | src/zimmerangebote/get_offers.py:194-198 | filling the day-cell scheme with year and month never raises `KeyError`; a valid month fills both marks |
| `CallSites.YearMonthFill` | src/zimmerangebote/utils.py:74-81 | any scheme holding `{year}` and `{month}` accepts a year and a month without `KeyError` |

## Left out

- `configure_driver`, `find_and_click`, `select_elements`, `click_stay_dates` apart from its `fill_scheme_string` call, and `main` apart from its two `fill_scheme_string` calls (`get_offers.py:24-80,118-216`): they drive a remote browser, with its waits, timeouts and script execution.
- Reading attributes with `get_attribute` / `find_element("..")` and the `int(...)` parse of attribute text: a cell is given directly as three integers and its parent's class string.
- `shift_date_by_months` (`utils.py:28-37`): it depends on today's date and on `dateutil`'s month arithmetic. The call-site lemmas take the target year and month as parameters.
- `get_custom_logger` and all logging: output only.
- `get_ngrams` is lazy in the source, and a generator argument would be consumed as it goes. The model takes a finite sequence and returns all n-grams at once. It does not model the `TypeError` for a non-integer third argument, or islice's `sys.maxsize` bound.
- Exception messages, apart from the mark a `KeyError` names: the supplied value and the partly filled scheme in the `KeyError` text (`utils.py:78-79`), and the messages of `date(...)`'s `ValueError` and `OverflowError`. They are text for a human reader; the mark is kept because it shows which check failed first.
- Room-offer records, the offer table and the two-horizon thread pool: they are not part of the code modelled here.
