/** The constants of settings.py that the modelled code reads. */
module Settings {

  /** XPath scheme of the link that opens a month in the calendar. */
  const AjaxMonthScheme := "//a[@onclick=\"AjaxCalendarSet({year}, {month});return false;\"]"

  /** XPath scheme of the day elements of one calendar month. */
  const CalendarDayScheme := "//div[@data-original-title and @class=\"abm-calendar-day\" and "
                           + "@data-month=\"{month}\" and @data-year=\"{year}\"]"

  /** XPath scheme of a departure day element. */
  const DepartureScheme := "//div[@class=\"abm-calendar-day\" and @data-month=\"{month}\" and "
                         + "@data-year=\"{year}\" and @data-day=\"{day}\" and "
                         + "contains(@data-original-title, 'Abreisedatum')]"

  /** The ending of a day's parent class attribute that marks the day as bookable. */
  const StateAvailable := "state-aa"
}
