/** Stay selection (get_offers.py): keep the bookable day cells, order them
    by day number, and take the first neighbouring pair whose day numbers
    are consecutive. */
module Offers {
  import opened Errors
  import opened Strings
  import Calendar
  import Ngrams
  import Settings

  /** A calendar day element as the scan sees it: its data-day, data-month
      and data-year attributes, and the class attribute of its parent. */
  datatype DayCell = DayCell(day: int, month: int, year: int, parentClass: string)

  /** A one-night stay: the arrival element and the departure date. */
  datatype Stay = Stay(arrival: DayCell, departure: Calendar.Date)

  // ---------------------------------------------------------------------------
  // Filtering and sorting

  /** `_is_day_available`: the parent's class ends with the availability marker. */
  predicate IsDayAvailable(cell: DayCell) {
    EndsWith(cell.parentClass, Settings.StateAvailable)
  }

  /** `filter(_is_day_available, days)`. */
  function AvailableDays(days: seq<DayCell>): seq<DayCell> {
    if days == [] then []
    else (if IsDayAvailable(days[0]) then [days[0]] else []) + AvailableDays(days[1..])
  }

  /** The filtered cells are exactly the available cells of the input. */
  lemma {:induction false} AvailableDaysMembers(days: seq<DayCell>)
    ensures forall c :: c in AvailableDays(days) <==> c in days && IsDayAvailable(c)
  {
    if days != [] {
      AvailableDaysMembers(days[1..]);
      assert forall c :: c in days <==> c == days[0] || c in days[1..];
    }
  }

  predicate SortedByDay(s: seq<DayCell>) {
    forall i, j :: 0 <= i < j < |s| ==> s[i].day <= s[j].day
  }

  /** Puts `c` in front of the first cell whose day is not smaller, so that
      it stays ahead of the cells with its own day number. */
  function InsertByDay(c: DayCell, s: seq<DayCell>): (r: seq<DayCell>)
    requires SortedByDay(s)
    ensures SortedByDay(r)
    ensures multiset(r) == multiset(s) + multiset{c}
  {
    if s == [] || c.day <= s[0].day then [c] + s
    else
      var rest := InsertByDay(c, s[1..]);
      InsertedAfterHead(c, s, rest);
      [s[0]] + rest
  }

  /** The step case of `InsertByDay`: a head no later than `c` and than the
      rest of `s` may lead the insertion into the rest. */
  lemma InsertedAfterHead(c: DayCell, s: seq<DayCell>, rest: seq<DayCell>)
    requires s != [] && SortedByDay(s) && s[0].day < c.day
    requires SortedByDay(rest) && multiset(rest) == multiset(s[1..]) + multiset{c}
    ensures SortedByDay([s[0]] + rest)
    ensures multiset([s[0]] + rest) == multiset(s) + multiset{c}
  {
    forall j | 0 <= j < |rest| ensures s[0].day <= rest[j].day {
      assert rest[j] in multiset(rest);
      if rest[j] != c {
        assert rest[j] in multiset(s[1..]);
        var k :| 0 <= k < |s[1..]| && s[1..][k] == rest[j];
        assert s[k + 1] == rest[j];
      }
    }
    var r := [s[0]] + rest;
    forall i, j | 0 <= i < j < |r| ensures r[i].day <= r[j].day {
      if i == 0 {
        assert r[j] == rest[j - 1];
      } else {
        assert r[i] == rest[i - 1] && r[j] == rest[j - 1];
      }
    }
    assert s == [s[0]] + s[1..];
  }

  /** `sorted(cells, key=day)`, a stable sort by day number. */
  function SortByDay(cells: seq<DayCell>): (r: seq<DayCell>)
    ensures SortedByDay(r)
    ensures multiset(r) == multiset(cells)
  {
    if cells == [] then []
    else
      assert cells == [cells[0]] + cells[1..];
      InsertByDay(cells[0], SortByDay(cells[1..]))
  }

  // ---------------------------------------------------------------------------
  // The scan

  /** Cells `i` and `i + 1` of `s` carry consecutive day numbers. */
  predicate AdjacentAt(s: seq<DayCell>, i: int) {
    0 <= i && i + 1 < |s| && s[i].day == s[i + 1].day - 1
  }

  /** The first position whose cell and the next carry consecutive days. */
  function FirstAdjacent(s: seq<DayCell>): (r: Option<nat>)
    ensures r.None? <==> forall i :: !AdjacentAt(s, i)
    ensures r.Some? ==> AdjacentAt(s, r.value) && forall i :: 0 <= i < r.value ==> !AdjacentAt(s, i)
    decreases |s|
  {
    if |s| < 2 then None
    else if AdjacentAt(s, 0) then Some(0)
    else
      var rest := FirstAdjacent(s[1..]);
      assert forall i :: AdjacentAt(s[1..], i) <==> AdjacentAt(s, i + 1);
      assert forall i :: AdjacentAt(s, i) ==> i > 0 && AdjacentAt(s[1..], i - 1);
      match rest
      case None => None
      case Some(i) => Some(i + 1)
  }

  /** The stay the scan of the ordered available cells yields: the first
      consecutive pair, with the departure date built from the right cell,
      which raises `ValueError` when its attributes name no date, or
      `OverflowError` when one of them does not fit a C `int`. */
  function StayFrom(sorted: seq<DayCell>): Result<Option<Stay>> {
    match FirstAdjacent(sorted)
    case None => Ok(None)
    case Some(i) =>
      var right := sorted[i + 1];
      match Calendar.MakeDate(right.year, right.month, right.day)
      case Err(e) => Err(e)
      case Ok(departure) => Ok(Some(Stay(sorted[i], departure)))
  }

  /** What `select_stay(days)` returns or raises. */
  function StayOf(days: seq<DayCell>): Result<Option<Stay>> {
    StayFrom(SortByDay(AvailableDays(days)))
  }

  /** The loop of `select_stay` over the bigrams of the ordered available cells. */
  method ScanForStay(availableDays: seq<DayCell>) returns (selectedDays: Result<Option<Stay>>)
    ensures selectedDays == StayFrom(availableDays)
  {
    var bigrams: Result<seq<seq<DayCell>>> := Ngrams.GetNgrams(availableDays, 2, None);
    Ngrams.NgramsAreWindows(availableDays, 2);
    var windows := bigrams.value;
    selectedDays := Ok(None);
    var k := 0;
    while k < |windows|
      invariant 0 <= k <= |windows|
      invariant forall j :: 0 <= j < k ==> !AdjacentAt(availableDays, j)
      invariant selectedDays == Ok(None)
    {
      var left: DayCell, right: DayCell := windows[k][0], windows[k][1];
      if left.day == right.day - 1 {
        assert windows[k] == availableDays[k..k + 2];
        assert AdjacentAt(availableDays, k);
        assert FirstAdjacent(availableDays) == Some(k);
        var departureDate := Calendar.MakeDate(right.year, right.month, right.day);
        if departureDate.Err? {
          return Err(departureDate.error);
        }
        selectedDays := Ok(Some(Stay(left, departureDate.value)));
        break;
      }
      k := k + 1;
    }
  }

  /** `select_stay`: filter, sort by day number, scan. */
  method SelectStay(days: seq<DayCell>) returns (selectedDays: Result<Option<Stay>>)
    ensures selectedDays == StayOf(days)
  {
    var availableDays := SortByDay(AvailableDays(days));
    selectedDays := ScanForStay(availableDays);
  }

  // ---------------------------------------------------------------------------
  // Properties of the selection

  /** The day numbers of the available cells. */
  function AvailableDayNumbers(days: seq<DayCell>): set<int> {
    set c | c in days && IsDayAvailable(c) :: c.day
  }

  /** `d` can be an arrival: both `d` and `d + 1` are among the numbers. */
  predicate IsArrivalDay(numbers: set<int>, d: int) {
    d in numbers && d + 1 in numbers
  }

  function DayNumbers(s: seq<DayCell>): set<int> {
    set c | c in s :: c.day
  }

  /** The cells selected by `WithDay` keep their relative order: the sort is stable. */
  function WithDay(s: seq<DayCell>, d: int): seq<DayCell> {
    if s == [] then [] else (if s[0].day == d then [s[0]] else []) + WithDay(s[1..], d)
  }

  lemma {:induction false} WithDayAppend(a: seq<DayCell>, b: seq<DayCell>, d: int)
    ensures WithDay(a + b, d) == WithDay(a, d) + WithDay(b, d)
    decreases |a|
  {
    if a == [] {
      assert a + b == b;
    } else {
      var head: seq<DayCell> := if a[0].day == d then [a[0]] else [];
      WithDayAppend(a[1..], b, d);
      assert (a + b)[0] == a[0] && (a + b)[1..] == a[1..] + b;
      assert WithDay(a + b, d) == head + WithDay(a[1..] + b, d);
      assert WithDay(a, d) == head + WithDay(a[1..], d);
    }
  }

  lemma WithDaySingle(c: DayCell, d: int)
    ensures WithDay([c], d) == if c.day == d then [c] else []
  {
    assert [c][1..] == [];
  }

  /** A cell strictly earlier than `c` may pass in front of it without
      changing which cells carry day `d`, in what order. */
  lemma PassEarlier(c: DayCell, x: DayCell, rest: seq<DayCell>, t: seq<DayCell>, d: int)
    requires x.day < c.day
    requires WithDay(rest, d) == (if c.day == d then [c] else []) + WithDay(t, d)
    ensures WithDay([x] + rest, d) == (if c.day == d then [c] else []) + WithDay([x] + t, d)
  {
    WithDaySingle(x, d);
    WithDayAppend([x], rest, d);
    WithDayAppend([x], t, d);
    if c.day == d {
      assert WithDay([x], d) == [];
    } else {
      assert WithDay([x] + rest, d) == WithDay([x], d) + WithDay(t, d);
    }
  }

  lemma {:induction false} InsertWithDay(c: DayCell, s: seq<DayCell>, d: int)
    requires SortedByDay(s)
    ensures WithDay(InsertByDay(c, s), d) == (if c.day == d then [c] else []) + WithDay(s, d)
    decreases |s|
  {
    if s == [] || c.day <= s[0].day {
      WithDaySingle(c, d);
      WithDayAppend([c], s, d);
    } else {
      InsertWithDay(c, s[1..], d);
      PassEarlier(c, s[0], InsertByDay(c, s[1..]), s[1..], d);
      assert [s[0]] + s[1..] == s;
    }
  }

  /** Sorting keeps, for every day number, the cells with that number in
      their original order. */
  lemma {:induction false} SortIsStable(cells: seq<DayCell>, d: int)
    ensures WithDay(SortByDay(cells), d) == WithDay(cells, d)
    decreases |cells|
  {
    if cells != [] {
      SortIsStable(cells[1..], d);
      InsertWithDay(cells[0], SortByDay(cells[1..]), d);
    }
  }

  /** In a sorted run, a cell at most `d` followed later by a cell above `d`
      has a neighbouring pair that straddles `d`. */
  lemma {:induction false} Straddle(s: seq<DayCell>, a: int, b: int, d: int)
    requires SortedByDay(s) && 0 <= a < b < |s|
    requires s[a].day <= d < s[b].day
    ensures exists j :: a <= j < b && s[j].day <= d < s[j + 1].day
    decreases b - a
  {
    if s[a + 1].day > d {
      assert a <= a < b && s[a].day <= d < s[a + 1].day;
    } else {
      Straddle(s, a + 1, b, d);
    }
  }

  lemma SortedAt(s: seq<DayCell>, i: int, j: int)
    requires SortedByDay(s) && 0 <= i <= j < |s|
    ensures s[i].day <= s[j].day
  {
    if i < j {
      assert s[i].day <= s[j].day;
    }
  }

  /** In a sorted sequence every arrival day starts some consecutive pair. */
  lemma ArrivalDayStartsPair(s: seq<DayCell>, d: int)
    requires SortedByDay(s) && IsArrivalDay(DayNumbers(s), d)
    ensures exists j :: AdjacentAt(s, j) && s[j].day == d
  {
    var lo :| lo in s && lo.day == d;
    var hi :| hi in s && hi.day == d + 1;
    var a :| 0 <= a < |s| && s[a] == lo;
    var b :| 0 <= b < |s| && s[b] == hi;
    Straddle(s, a, b, d);
    var j :| a <= j < b && s[j].day <= d < s[j + 1].day;
    SortedAt(s, a, j);
    SortedAt(s, j + 1, b);
    assert AdjacentAt(s, j);
  }

  /** In a sorted sequence the first consecutive pair starts at the least
      arrival day, and there is none exactly when no arrival day exists. */
  lemma SortedFirstAdjacent(s: seq<DayCell>)
    requires SortedByDay(s)
    ensures FirstAdjacent(s).None? <==> forall d :: !IsArrivalDay(DayNumbers(s), d)
    ensures FirstAdjacent(s).Some? ==>
      var i := FirstAdjacent(s).value;
      IsArrivalDay(DayNumbers(s), s[i].day) && forall d :: IsArrivalDay(DayNumbers(s), d) ==> s[i].day <= d
  {
    var numbers := DayNumbers(s);
    var first := FirstAdjacent(s);
    if first.None? {
      forall d | IsArrivalDay(numbers, d) ensures false {
        ArrivalDayStartsPair(s, d);
      }
    } else {
      var i := first.value;
      assert s[i] in s && s[i + 1] in s;
      assert IsArrivalDay(numbers, s[i].day);
      forall d | IsArrivalDay(numbers, d) ensures s[i].day <= d {
        ArrivalDayStartsPair(s, d);
        var j :| AdjacentAt(s, j) && s[j].day == d;
        assert i <= j;
      }
    }
  }

  lemma OrderedAvailableDayNumbers(days: seq<DayCell>)
    ensures DayNumbers(SortByDay(AvailableDays(days))) == AvailableDayNumbers(days)
  {
    var available := AvailableDays(days);
    var sorted := SortByDay(available);
    AvailableDaysMembers(days);
    forall c ensures c in sorted <==> c in available {
      assert c in sorted <==> c in multiset(sorted);
      assert c in available <==> c in multiset(available);
    }
  }

  /** `select_stay` gives `None` exactly when no two available day numbers
      are consecutive. */
  lemma NoStayIffNoArrivalDay(days: seq<DayCell>)
    ensures StayOf(days) == Ok(None) <==> forall d :: !IsArrivalDay(AvailableDayNumbers(days), d)
  {
    OrderedAvailableDayNumbers(days);
    SortedFirstAdjacent(SortByDay(AvailableDays(days)));
  }

  /** Fewer than two available cells never give a stay. */
  lemma FewerThanTwoAvailableNoStay(days: seq<DayCell>)
    requires |AvailableDays(days)| < 2
    ensures StayOf(days) == Ok(None)
  {
    var sorted := SortByDay(AvailableDays(days));
    assert |sorted| == |multiset(sorted)| == |AvailableDays(days)|;
  }

  /** A returned stay starts on an available cell of the input, on the least
      arrival day; its departure is the next day number, taken with month and
      year from an available cell carrying that day number. */
  lemma StayIsEarliestArrival(days: seq<DayCell>)
    requires StayOf(days).Ok? && StayOf(days).value.Some?
    ensures var stay, numbers := StayOf(days).value.value, AvailableDayNumbers(days);
      && stay.arrival in days && IsDayAvailable(stay.arrival)
      && stay.departure.day == stay.arrival.day + 1
      && Calendar.IsValidDate(stay.departure.year, stay.departure.month, stay.departure.day)
      && (exists right :: right in days && IsDayAvailable(right) && DateOf(right) == stay.departure)
      && IsArrivalDay(numbers, stay.arrival.day)
      && forall d :: IsArrivalDay(numbers, d) ==> stay.arrival.day <= d
  {
    var sorted := SortByDay(AvailableDays(days));
    var i := FirstAdjacent(sorted).value;
    var left, right := sorted[i], sorted[i + 1];
    assert StayOf(days).value.value == Stay(left, DateOf(right));
    SortedCellIsAvailable(days, i);
    SortedCellIsAvailable(days, i + 1);
    FirstPairIsLeastArrival(days, i);
  }

  /** `stay` arrives on the LAST cell of its arrival day in `cells` and
      departs on the date of the FIRST cell of the next day in `cells`. */
  predicate PicksRunEnds(stay: Stay, cells: seq<DayCell>) {
    var arrivals, departures := WithDay(cells, stay.arrival.day), WithDay(cells, stay.arrival.day + 1);
    && arrivals != [] && stay.arrival == arrivals[|arrivals| - 1]
    && departures != [] && stay.departure == DateOf(departures[0])
  }

  /** Which cells are picked when day numbers repeat: the sort keeps input
      order among equal day numbers, so the arrival is the LAST available
      input cell of the arrival day, and the departure is the date of the
      FIRST available input cell of the following day. */
  lemma StayPicksLastArrivalFirstDeparture(days: seq<DayCell>)
    requires StayOf(days).Ok? && StayOf(days).value.Some?
    ensures PicksRunEnds(StayOf(days).value.value, AvailableDays(days))
  {
    var available := AvailableDays(days);
    var sorted := SortByDay(available);
    var stay := StayFrom(sorted).value.value;
    ScanPicksPairEnds(sorted);
    SortIsStable(available, stay.arrival.day);
    SortIsStable(available, stay.arrival.day + 1);
    PicksRunEndsTransfer(stay, sorted, available);
  }

  /** The scan of a sorted run picks the ends of the consecutive pair. */
  lemma ScanPicksPairEnds(sorted: seq<DayCell>)
    requires SortedByDay(sorted) && StayFrom(sorted).Ok? && StayFrom(sorted).value.Some?
    ensures PicksRunEnds(StayFrom(sorted).value.value, sorted)
  {
    var i := FirstAdjacent(sorted).value;
    var right := sorted[i + 1];
    Calendar.MakeDateOutcomes(right.year, right.month, right.day);
    assert StayFrom(sorted).value.value == Stay(sorted[i], DateOf(right));
    AdjacentPairEnds(sorted, i);
  }

  /** Two runs with the same cells of the arrival day and of the next day,
      in the same order, pick the same ends. */
  lemma PicksRunEndsTransfer(stay: Stay, a: seq<DayCell>, b: seq<DayCell>)
    requires PicksRunEnds(stay, a)
    requires WithDay(a, stay.arrival.day) == WithDay(b, stay.arrival.day)
    requires WithDay(a, stay.arrival.day + 1) == WithDay(b, stay.arrival.day + 1)
    ensures PicksRunEnds(stay, b)
  {
  }

  /** In a sorted run, a consecutive pair is the last cell of its day and
      the first cell of the next day. */
  lemma AdjacentPairEnds(s: seq<DayCell>, i: int)
    requires SortedByDay(s) && AdjacentAt(s, i)
    ensures var arrivals, departures := WithDay(s, s[i].day), WithDay(s, s[i].day + 1);
      && arrivals != [] && arrivals[|arrivals| - 1] == s[i]
      && departures != [] && departures[0] == s[i + 1]
  {
    var d := s[i].day;
    forall j | i < j < |s| ensures s[j].day != d {
      SortedAt(s, i + 1, j);
    }
    forall j | 0 <= j < i + 1 ensures s[j].day != d + 1 {
      SortedAt(s, j, i);
    }
    WithDayLast(s, i, d);
    WithDayFirst(s, i + 1, d + 1);
  }

  /** With no cell of day `d`, `WithDay` keeps nothing. */
  lemma {:induction false} WithDayNone(s: seq<DayCell>, d: int)
    requires forall j :: 0 <= j < |s| ==> s[j].day != d
    ensures WithDay(s, d) == []
    decreases |s|
  {
    if s != [] {
      WithDayNone(s[1..], d);
    }
  }

  /** A cell of day `d` with no later cell of that day is the last one kept. */
  lemma WithDayLast(s: seq<DayCell>, i: int, d: int)
    requires 0 <= i < |s| && s[i].day == d
    requires forall j :: i < j < |s| ==> s[j].day != d
    ensures WithDay(s, d) != [] && WithDay(s, d)[|WithDay(s, d)| - 1] == s[i]
  {
    var head, tail := s[..i], s[i + 1..];
    WithDayNone(tail, d);
    assert s == (head + [s[i]]) + tail;
    WithDayAppend(head + [s[i]], tail, d);
    WithDayAppend(head, [s[i]], d);
    WithDaySingle(s[i], d);
  }

  /** A cell of day `d` with no earlier cell of that day is the first one kept. */
  lemma WithDayFirst(s: seq<DayCell>, i: int, d: int)
    requires 0 <= i < |s| && s[i].day == d
    requires forall j :: 0 <= j < i ==> s[j].day != d
    ensures WithDay(s, d) != [] && WithDay(s, d)[0] == s[i]
  {
    var head, tail := s[..i], s[i + 1..];
    WithDayNone(head, d);
    assert s == head + ([s[i]] + tail);
    WithDayAppend(head, [s[i]] + tail, d);
    WithDayAppend([s[i]], tail, d);
    WithDaySingle(s[i], d);
  }

  /** The date a cell's attributes spell. */
  function DateOf(cell: DayCell): Calendar.Date {
    Calendar.Date(cell.year, cell.month, cell.day)
  }

  /** `right`'s day number comes right after the least arrival day. */
  ghost predicate FollowsLeastArrival(days: seq<DayCell>, right: DayCell) {
    && IsArrivalDay(AvailableDayNumbers(days), right.day - 1)
    && forall d :: IsArrivalDay(AvailableDayNumbers(days), d) ==> right.day - 1 <= d
  }

  /** `right` follows the least arrival day but its attributes name no date. */
  ghost predicate IsInvalidDeparture(days: seq<DayCell>, right: DayCell) {
    !Calendar.IsValidDate(right.year, right.month, right.day) && FollowsLeastArrival(days, right)
  }

  /** A raise comes only from the departure date: the cell after the least
      arrival day carries attributes that name no date. It is `ValueError`
      when they fit C `int`s, and `OverflowError` otherwise. */
  lemma StayErrorIsInvalidDeparture(days: seq<DayCell>)
    requires StayOf(days).Err?
    ensures StayOf(days).error == ValueError || StayOf(days).error == OverflowError
    ensures exists right ::
      && right in days && IsDayAvailable(right) && IsInvalidDeparture(days, right)
      && StayOf(days).error == (if Calendar.FitCInts(right.year, right.month, right.day) then ValueError else OverflowError)
  {
    var sorted := SortByDay(AvailableDays(days));
    StayFromError(sorted);
    var i := FirstAdjacent(sorted).value;
    var right := sorted[i + 1];
    RightCellFollowsLeastArrival(days, i);
    assert IsInvalidDeparture(days, right);
  }

  /** The right cell of the first pair is an available cell of the input
      whose day number follows the least arrival day. */
  lemma RightCellFollowsLeastArrival(days: seq<DayCell>, i: nat)
    requires FirstAdjacent(SortByDay(AvailableDays(days))) == Some(i)
    ensures var right := SortByDay(AvailableDays(days))[i + 1];
      right in days && IsDayAvailable(right) && FollowsLeastArrival(days, right)
  {
    var sorted := SortByDay(AvailableDays(days));
    FirstPairIsLeastArrival(days, i);
    SortedCellIsAvailable(days, i + 1);
    LeastArrivalFollowed(days, sorted[i].day, sorted[i + 1]);
  }

  /** A cell whose day number is one past the least arrival day follows it. */
  lemma LeastArrivalFollowed(days: seq<DayCell>, arrival: int, right: DayCell)
    requires IsArrivalDay(AvailableDayNumbers(days), arrival)
    requires forall d :: IsArrivalDay(AvailableDayNumbers(days), d) ==> arrival <= d
    requires right.day == arrival + 1
    ensures FollowsLeastArrival(days, right)
  {
  }

  /** The scan fails only on the right cell of the first pair, when its
      attributes name no date: `ValueError` when they fit C `int`s, else
      `OverflowError`. */
  lemma StayFromError(sorted: seq<DayCell>)
    requires StayFrom(sorted).Err?
    ensures FirstAdjacent(sorted).Some? && FirstAdjacent(sorted).value + 1 < |sorted|
    ensures var right := sorted[FirstAdjacent(sorted).value + 1];
      && !Calendar.IsValidDate(right.year, right.month, right.day)
      && StayFrom(sorted).error == (if Calendar.FitCInts(right.year, right.month, right.day) then ValueError else OverflowError)
  {
    var right := sorted[FirstAdjacent(sorted).value + 1];
    Calendar.MakeDateOutcomes(right.year, right.month, right.day);
  }

  /** The first pair of the ordered available cells starts on the least
      arrival day of the input. */
  lemma FirstPairIsLeastArrival(days: seq<DayCell>, i: nat)
    requires FirstAdjacent(SortByDay(AvailableDays(days))) == Some(i)
    ensures var sorted, numbers := SortByDay(AvailableDays(days)), AvailableDayNumbers(days);
      && i + 1 < |sorted| && sorted[i + 1].day == sorted[i].day + 1
      && IsArrivalDay(numbers, sorted[i].day)
      && forall d :: IsArrivalDay(numbers, d) ==> sorted[i].day <= d
  {
    var sorted := SortByDay(AvailableDays(days));
    assert AdjacentAt(sorted, i);
    SortedFirstAdjacent(sorted);
    assert IsArrivalDay(DayNumbers(sorted), sorted[i].day);
    OrderedAvailableDayNumbers(days);
  }

  /** Each cell of the ordered available cells is an available cell of the input. */
  lemma SortedCellIsAvailable(days: seq<DayCell>, k: int)
    requires 0 <= k < |SortByDay(AvailableDays(days))|
    ensures SortByDay(AvailableDays(days))[k] in days && IsDayAvailable(SortByDay(AvailableDays(days))[k])
  {
    var sorted := SortByDay(AvailableDays(days));
    assert sorted[k] in multiset(sorted);
    AvailableDaysMembers(days);
  }

  lemma {:induction false} AvailableDaysAppend(a: seq<DayCell>, b: seq<DayCell>)
    ensures AvailableDays(a + b) == AvailableDays(a) + AvailableDays(b)
    decreases |a|
  {
    if a == [] {
      assert a + b == b;
    } else {
      var head: seq<DayCell> := if IsDayAvailable(a[0]) then [a[0]] else [];
      AvailableDaysAppend(a[1..], b);
      assert (a + b)[0] == a[0] && (a + b)[1..] == a[1..] + b;
      assert AvailableDays(a + b) == head + AvailableDays(a[1..] + b);
      assert AvailableDays(a) == head + AvailableDays(a[1..]);
    }
  }

  /** Adding or removing an unavailable cell anywhere leaves the outcome unchanged. */
  lemma UnavailableCellIgnored(a: seq<DayCell>, u: DayCell, b: seq<DayCell>)
    requires !IsDayAvailable(u)
    ensures StayOf(a + [u] + b) == StayOf(a + b)
  {
    AvailableDaysAppend(a + [u], b);
    AvailableDaysAppend(a, [u]);
    AvailableDaysAppend(a, b);
    assert AvailableDays([u]) == [] by {
      assert [u][1..] == [];
    }
    assert AvailableDays(a + [u]) == AvailableDays(a);
    assert AvailableDays(a + [u] + b) == AvailableDays(a + b);
  }

  /** In particular a leading cell that is not available may be dropped. */
  lemma UnavailableHeadIgnored(days: seq<DayCell>)
    requires days != [] && !IsDayAvailable(days[0])
    ensures StayOf(days) == StayOf(days[1..])
  {
    UnavailableCellIgnored([], days[0], days[1..]);
    assert [] + [days[0]] + days[1..] == days;
    assert [] + days[1..] == days[1..];
  }

  /** Reordering the input changes neither whether a stay is found nor the
      arrival day number. */
  lemma ArrivalDayIgnoresOrder(days: seq<DayCell>, other: seq<DayCell>)
    requires multiset(days) == multiset(other)
    ensures StayOf(days) == Ok(None) <==> StayOf(other) == Ok(None)
    ensures StayOf(days).Ok? && StayOf(days).value.Some? && StayOf(other).Ok? && StayOf(other).value.Some? ==>
      StayOf(days).value.value.arrival.day == StayOf(other).value.value.arrival.day
  {
    assert AvailableDayNumbers(days) == AvailableDayNumbers(other) by {
      forall c ensures c in days <==> c in other {
        assert c in days <==> c in multiset(days);
        assert c in other <==> c in multiset(other);
      }
    }
    NoStayIffNoArrivalDay(days);
    NoStayIffNoArrivalDay(other);
    if StayOf(days).Ok? && StayOf(days).value.Some? && StayOf(other).Ok? && StayOf(other).value.Some? {
      StayIsEarliestArrival(days);
      StayIsEarliestArrival(other);
    }
  }

  // ---------------------------------------------------------------------------
  // Scenarios

  const Open := "abm-calendar-day state-aa"
  const Closed := "abm-calendar-day state-na"

  /** Availability is a suffix test: the marker elsewhere in the class does not count. */
  lemma AvailabilityIsSuffixTest()
    ensures IsDayAvailable(DayCell(1, 3, 2025, Open))
    ensures !IsDayAvailable(DayCell(1, 3, 2025, "state-aa abm-calendar-day"))
    ensures Contains("state-aa abm-calendar-day", Settings.StateAvailable)
  {
    assert StartsWith("state-aa abm-calendar-day", Settings.StateAvailable);
  }

  lemma OpenAndClosed(day: int, month: int, year: int)
    ensures IsDayAvailable(DayCell(day, month, year, Open))
    ensures !IsDayAvailable(DayCell(day, month, year, Closed))
  {
  }

  /** Filtering a run of available cells keeps all of them. */
  lemma {:induction false} AllAvailableKept(s: seq<DayCell>)
    requires forall i :: 0 <= i < |s| ==> IsDayAvailable(s[i])
    ensures AvailableDays(s) == s
  {
    if s != [] {
      AllAvailableKept(s[1..]);
      assert [s[0]] + s[1..] == s;
    }
  }

  /** Sorting an already ordered run changes nothing. */
  lemma {:induction false} SortOfSortedIsIdentity(s: seq<DayCell>)
    requires SortedByDay(s)
    ensures SortByDay(s) == s
  {
    if s != [] {
      SortOfSortedIsIdentity(s[1..]);
      assert [s[0]] + s[1..] == s;
    }
  }

  lemma OpenRunInOrder(c11: DayCell, c12: DayCell, c15: DayCell)
    requires c11 == DayCell(11, 3, 2025, Open) && c12 == DayCell(12, 3, 2025, Open)
    requires c15 == DayCell(15, 3, 2025, Open)
    ensures SortByDay(AvailableDays([c11, c12, c15])) == [c11, c12, c15]
  {
    OpenAndClosed(11, 3, 2025);
    OpenAndClosed(12, 3, 2025);
    OpenAndClosed(15, 3, 2025);
    AllAvailableKept([c11, c12, c15]);
    SortOfSortedIsIdentity([c11, c12, c15]);
  }

  lemma OpenRunStay(rest: seq<DayCell>)
    requires rest == [DayCell(11, 3, 2025, Open), DayCell(12, 3, 2025, Open), DayCell(15, 3, 2025, Open)]
    ensures StayOf(rest) == Ok(Some(Stay(rest[0], Calendar.Date(2025, 3, 12))))
  {
    OpenRunInOrder(rest[0], rest[1], rest[2]);
    assert SortByDay(AvailableDays(rest)) == rest;
    assert AdjacentAt(rest, 0);
    assert FirstAdjacent(rest) == Some(0);
    assert Calendar.IsValidDate(2025, 3, 12);
    Calendar.MakeDateOutcomes(2025, 3, 12);
  }

  /** Days 10 (closed), 11, 12 and 15 (open) give arrival 11 and departure 12. */
  lemma EarliestPairScenario(days: seq<DayCell>)
    requires days == [DayCell(10, 3, 2025, Closed), DayCell(11, 3, 2025, Open),
                      DayCell(12, 3, 2025, Open), DayCell(15, 3, 2025, Open)]
    ensures StayOf(days) == Ok(Some(Stay(DayCell(11, 3, 2025, Open), Calendar.Date(2025, 3, 12))))
  {
    OpenAndClosed(10, 3, 2025);
    UnavailableHeadIgnored(days);
    OpenRunStay(days[1..]);
  }

  /** Days 3 and 7 alone are both open but not consecutive: no stay. */
  lemma NonConsecutiveScenario()
    ensures StayOf([DayCell(3, 3, 2025, Open), DayCell(7, 3, 2025, Open)]) == Ok(None)
  {
    var days := [DayCell(3, 3, 2025, Open), DayCell(7, 3, 2025, Open)];
    NoStayIffNoArrivalDay(days);
    assert IsDayAvailable(days[0]) && IsDayAvailable(days[1]);
    assert AvailableDayNumbers(days) == {3, 7} by {
      assert forall c :: c in days <==> c == days[0] || c == days[1];
    }
  }

  /** Adjacency compares day numbers only: January 31 and February 1 are not a stay. */
  lemma MonthRolloverScenario()
    ensures StayOf([DayCell(31, 1, 2025, Open), DayCell(1, 2, 2025, Open)]) == Ok(None)
  {
    var days := [DayCell(31, 1, 2025, Open), DayCell(1, 2, 2025, Open)];
    NoStayIffNoArrivalDay(days);
    assert IsDayAvailable(days[0]) && IsDayAvailable(days[1]);
    assert AvailableDayNumbers(days) == {31, 1} by {
      assert forall c :: c in days <==> c == days[0] || c == days[1];
    }
  }

  /** A right-hand cell claiming February 29 of a common year raises `ValueError`. */
  lemma InvalidDepartureScenario()
    ensures StayOf([DayCell(28, 2, 2023, Open), DayCell(29, 2, 2023, Open)]) == Err(ValueError)
  {
    var c28, c29 := DayCell(28, 2, 2023, Open), DayCell(29, 2, 2023, Open);
    OpenAndClosed(28, 2, 2023);
    OpenAndClosed(29, 2, 2023);
    AllAvailableKept([c28, c29]);
    SortOfSortedIsIdentity([c28, c29]);
    assert FirstAdjacent([c28, c29]) == Some(0);
  }

  /** A right-hand day number of 2**31 does not fit a C `int`: `OverflowError`. */
  lemma OverflowDepartureScenario()
    ensures StayOf([DayCell(0x7FFF_FFFF, 3, 2025, Open), DayCell(0x8000_0000, 3, 2025, Open)]) == Err(OverflowError)
  {
    var left, right := DayCell(0x7FFF_FFFF, 3, 2025, Open), DayCell(0x8000_0000, 3, 2025, Open);
    OpenAndClosed(0x7FFF_FFFF, 3, 2025);
    OpenAndClosed(0x8000_0000, 3, 2025);
    AllAvailableKept([left, right]);
    SortOfSortedIsIdentity([left, right]);
    assert FirstAdjacent([left, right]) == Some(0);
    Calendar.MakeDateOutcomes(right.year, right.month, right.day);
  }

  /** The same three open cells in two orders: day numbers 11, 12, 12, where
      one day-12 cell claims month 13. The stable sort keeps the two day-12
      cells in input order, and the first of them supplies the departure, so
      one order gives a stay and the other raises `ValueError`. */
  lemma ReorderChangesOutcome(c11: DayCell, c12: DayCell, c13: DayCell)
    requires c11 == DayCell(11, 3, 2025, Open) && c12 == DayCell(12, 3, 2025, Open)
    requires c13 == DayCell(12, 13, 2025, Open)
    ensures multiset([c11, c12, c13]) == multiset([c11, c13, c12])
    ensures StayOf([c11, c12, c13]) == Ok(Some(Stay(c11, Calendar.Date(2025, 3, 12))))
    ensures StayOf([c11, c13, c12]) == Err(ValueError)
  {
    ValidMonthFirst(c11, c12, c13);
    InvalidMonthFirst(c11, c12, c13);
  }

  lemma ValidMonthFirst(c11: DayCell, c12: DayCell, c13: DayCell)
    requires c11 == DayCell(11, 3, 2025, Open) && c12 == DayCell(12, 3, 2025, Open)
    requires c13 == DayCell(12, 13, 2025, Open)
    ensures StayOf([c11, c12, c13]) == Ok(Some(Stay(c11, Calendar.Date(2025, 3, 12))))
  {
    OpenAndClosed(11, 3, 2025);
    OpenAndClosed(12, 3, 2025);
    OpenAndClosed(12, 13, 2025);
    OpenRunFrom([c11, c12, c13]);
    assert AdjacentAt([c11, c12, c13], 0);
    assert Calendar.IsValidDate(2025, 3, 12);
    Calendar.MakeDateOutcomes(2025, 3, 12);
  }

  lemma InvalidMonthFirst(c11: DayCell, c12: DayCell, c13: DayCell)
    requires c11 == DayCell(11, 3, 2025, Open) && c12 == DayCell(12, 3, 2025, Open)
    requires c13 == DayCell(12, 13, 2025, Open)
    ensures StayOf([c11, c13, c12]) == Err(ValueError)
  {
    OpenAndClosed(11, 3, 2025);
    OpenAndClosed(12, 3, 2025);
    OpenAndClosed(12, 13, 2025);
    OpenRunFrom([c11, c13, c12]);
    assert AdjacentAt([c11, c13, c12], 0);
    assert !Calendar.IsValidDate(2025, 13, 12);
    Calendar.MakeDateOutcomes(2025, 13, 12);
  }

  /** A run of available cells already ordered by day is scanned as it stands. */
  lemma OpenRunFrom(days: seq<DayCell>)
    requires forall k :: 0 <= k < |days| ==> IsDayAvailable(days[k])
    requires SortedByDay(days)
    ensures StayOf(days) == StayFrom(days)
  {
    AllAvailableKept(days);
    SortOfSortedIsIdentity(days);
  }

  /** With two open cells on day 11 and two on day 12, the arrival is the
      LAST cell of day 11 and the departure is built from the FIRST cell of
      day 12: only neighbours in the sorted run are compared. */
  lemma DuplicateArrivalPicksLast(days: seq<DayCell>)
    requires days == DuplicateDays
    ensures StayOf(days) == Ok(Some(Stay(DayCell(11, 4, 2025, Open), Calendar.Date(2025, 5, 12))))
  {
    DuplicateDaysInOrder();
    DuplicateDaysFirstPair();
    assert Calendar.IsValidDate(2025, 5, 12);
    Calendar.MakeDateOutcomes(2025, 5, 12);
  }

  /** Open days 11 (March, April) and 12 (May, June) of 2025. */
  const DuplicateDays := [DayCell(11, 3, 2025, Open), DayCell(11, 4, 2025, Open),
                          DayCell(12, 5, 2025, Open), DayCell(12, 6, 2025, Open)]

  lemma DuplicateDaysInOrder()
    ensures SortByDay(AvailableDays(DuplicateDays)) == DuplicateDays
  {
    var days := DuplicateDays;
    forall k | 0 <= k < |days| ensures IsDayAvailable(days[k]) {
      OpenAndClosed(days[k].day, days[k].month, days[k].year);
    }
    AllAvailableKept(days);
    SortOfSortedIsIdentity(days);
  }

  lemma DuplicateDaysFirstPair()
    ensures FirstAdjacent(DuplicateDays) == Some(1)
  {
    var days := DuplicateDays;
    assert days[1..][0] == days[1] && days[1..][1] == days[2];
    assert AdjacentAt(days[1..], 0);
    assert FirstAdjacent(days[1..]) == Some(0);
    assert !AdjacentAt(days, 0);
  }
}
