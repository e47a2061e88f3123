/** The three `fill_scheme_string` calls in get_offers.py: the schemes they
    fill hold every mark the calls supply, so none of them raises `KeyError`,
    and a valid date fills each scheme completely. */
module CallSites {
  import opened Errors
  import opened Strings
  import opened Schemes
  import Calendar
  import Settings
  import Offers

  /** A mark whose characters sit at positions `i`, `i + 1`, ... of the scheme occurs in it. */
  lemma MarkAt(scheme: string, mark: string, i: int)
    requires 0 <= i && i + |mark| <= |scheme|
    requires forall k :: 0 <= k < |mark| ==> scheme[i + k] == mark[k]
    ensures Contains(scheme, mark)
  {
    assert scheme[i..i + |mark|] == mark;
    assert OccursAt(scheme, mark, i);
    ContainsIffOccurs(scheme, mark);
  }

  lemma DepartureSchemeHasAllMarks()
    ensures Contains(Settings.DepartureScheme, YearMark)
    ensures Contains(Settings.DepartureScheme, MonthMark)
    ensures Contains(Settings.DepartureScheme, DayMark)
  {
    assert forall k :: 0 <= k < |YearMark| ==> Settings.DepartureScheme[74 + k] == YearMark[k];
    assert forall k :: 0 <= k < |MonthMark| ==> Settings.DepartureScheme[49 + k] == MonthMark[k];
    assert forall k :: 0 <= k < |DayMark| ==> Settings.DepartureScheme[97 + k] == DayMark[k];
    MarkAt(Settings.DepartureScheme, YearMark, 74);
    MarkAt(Settings.DepartureScheme, MonthMark, 49);
    MarkAt(Settings.DepartureScheme, DayMark, 97);
  }

  lemma AjaxMonthSchemeHasYearAndMonth()
    ensures Contains(Settings.AjaxMonthScheme, YearMark) && Contains(Settings.AjaxMonthScheme, MonthMark)
  {
    assert forall k :: 0 <= k < |YearMark| ==> Settings.AjaxMonthScheme[30 + k] == YearMark[k];
    assert forall k :: 0 <= k < |MonthMark| ==> Settings.AjaxMonthScheme[38 + k] == MonthMark[k];
    MarkAt(Settings.AjaxMonthScheme, YearMark, 30);
    MarkAt(Settings.AjaxMonthScheme, MonthMark, 38);
  }

  lemma CalendarDaySchemeHasYearAndMonth()
    ensures Contains(Settings.CalendarDayScheme, YearMark) && Contains(Settings.CalendarDayScheme, MonthMark)
  {
    assert forall k :: 0 <= k < |YearMark| ==> Settings.CalendarDayScheme[99 + k] == YearMark[k];
    assert forall k :: 0 <= k < |MonthMark| ==> Settings.CalendarDayScheme[74 + k] == MonthMark[k];
    MarkAt(Settings.CalendarDayScheme, YearMark, 99);
    MarkAt(Settings.CalendarDayScheme, MonthMark, 74);
  }

  /** `click_stay_dates` fills the departure scheme with year, month and day:
      never `KeyError`, and for a real date a result with no mark left. */
  lemma DepartureFillNeverKeyError(year: int, month: int, day: int)
    ensures !IsKeyError(FillScheme(Settings.DepartureScheme, Some(year), Some(month), Some(day)))
    ensures Calendar.IsValidDate(year, month, day) ==>
      var r := FillScheme(Settings.DepartureScheme, Some(year), Some(month), Some(day));
      r.Ok? && !Contains(r.value, YearMark) && !Contains(r.value, MonthMark) && !Contains(r.value, DayMark)
  {
    DepartureSchemeHasAllMarks();
    var values := [Some(year), Some(month), Some(day)];
    assert FirstMissing(Settings.DepartureScheme, values, 0).None?;
    if Calendar.IsValidDate(year, month, day) {
      FillSuccessMarks(Settings.DepartureScheme, Some(year), Some(month), Some(day));
      assert values[0].Some? && values[1].Some? && values[2].Some?;
    }
  }

  /** A stay returned by `select_stay` always fills the departure scheme. */
  lemma SelectedStayFillsDeparture(days: seq<Offers.DayCell>)
    requires Offers.StayOf(days).Ok? && Offers.StayOf(days).value.Some?
    ensures var d := Offers.StayOf(days).value.value.departure;
      FillScheme(Settings.DepartureScheme, Some(d.year), Some(d.month), Some(d.day)).Ok?
  {
    Offers.StayIsEarliestArrival(days);
    var d := Offers.StayOf(days).value.value.departure;
    DepartureFillNeverKeyError(d.year, d.month, d.day);
  }

  /** Any scheme holding `{year}` and `{month}` accepts a year and a month. */
  lemma YearMonthFill(scheme: string, year: int, month: int)
    requires Contains(scheme, YearMark) && Contains(scheme, MonthMark)
    ensures !IsKeyError(FillScheme(scheme, Some(year), Some(month), None))
    ensures Calendar.IsValidDate(year, month, 1) ==>
      var r := FillScheme(scheme, Some(year), Some(month), None);
      r.Ok? && !Contains(r.value, YearMark) && !Contains(r.value, MonthMark)
  {
    var values := [Some(year), Some(month), None];
    assert FirstMissing(scheme, values, 0).None?;
    if Calendar.IsValidDate(year, month, 1) {
      FillSuccessMarks(scheme, Some(year), Some(month), None);
      assert values[0].Some? && values[1].Some?;
    }
  }

  /** `main` fills the month-link scheme with the target year and month. */
  lemma MonthLinkFillNeverKeyError(year: int, month: int)
    ensures !IsKeyError(FillScheme(Settings.AjaxMonthScheme, Some(year), Some(month), None))
    ensures Calendar.IsValidDate(year, month, 1) ==>
      var r := FillScheme(Settings.AjaxMonthScheme, Some(year), Some(month), None);
      r.Ok? && !Contains(r.value, YearMark) && !Contains(r.value, MonthMark)
  {
    AjaxMonthSchemeHasYearAndMonth();
    YearMonthFill(Settings.AjaxMonthScheme, year, month);
  }

  /** `main` fills the day-cell scheme with the target year and month. */
  lemma CalendarDaysFillNeverKeyError(year: int, month: int)
    ensures !IsKeyError(FillScheme(Settings.CalendarDayScheme, Some(year), Some(month), None))
    ensures Calendar.IsValidDate(year, month, 1) ==>
      var r := FillScheme(Settings.CalendarDayScheme, Some(year), Some(month), None);
      r.Ok? && !Contains(r.value, YearMark) && !Contains(r.value, MonthMark)
  {
    CalendarDaySchemeHasYearAndMonth();
    YearMonthFill(Settings.CalendarDayScheme, year, month);
  }
}
