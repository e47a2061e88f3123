/** `fill_scheme_string` (utils.py): validate a (year, month, day) triple,
    then replace the `{year}`, `{month}` and `{day}` marks of a scheme with
    the supplied numbers, raising `KeyError` for a supplied number whose mark
    the scheme lacks. */
module Schemes {
  import opened Errors
  import opened Strings
  import Calendar

  const YearMark := "{year}"
  const MonthMark := "{month}"
  const DayMark := "{day}"

  /** The marks in the order the loop visits them. */
  const Marks: seq<string> := [YearMark, MonthMark, DayMark]

  /** Stand-ins for missing components in the validity check. */
  const DefaultYear := 2022
  const DefaultMonth := 12
  const DefaultDay := 1

  // ---------------------------------------------------------------------------
  // Marks and the text that replaces them

  /** A character that may follow the opening brace of a mark. */
  predicate MarkChar(c: char) {
    c != '{' && !IsDigit(c) && c != '-'
  }

  /** A brace followed by at least one mark character; the three marks are of this shape. */
  predicate IsMark(m: string) {
    |m| >= 2 && m[0] == '{' && forall i :: 1 <= i < |m| ==> MarkChar(m[i])
  }

  /** Text made of digits and minus signs only, as `str(int)` produces. */
  predicate Inert(d: string) {
    |d| > 0 && forall i :: 0 <= i < |d| ==> IsDigit(d[i]) || d[i] == '-'
  }

  lemma DecimalIsInert(n: int)
    ensures Inert(Decimal(n))
  {
    var s := Decimal(n);
    if s[0] == '-' && |s| > 1 {
      forall i | 0 <= i < |s| ensures IsDigit(s[i]) || s[i] == '-' {
        if i > 0 { assert s[i] == s[1..][i - 1]; }
      }
    }
  }

  lemma MarksAreDistinctMarks()
    ensures forall k :: 0 <= k < |Marks| ==> IsMark(Marks[k])
    ensures forall j, k :: 0 <= j < k < |Marks| ==> Marks[j][1] != Marks[k][1]
  {
  }

  lemma StartsWithCons(c: char, r: string, q: string)
    requires |q| > 0
    ensures StartsWith([c] + r, q) <==> c == q[0] && StartsWith(r, q[1..])
  {
    if StartsWith([c] + r, q) {
      assert r[..|q| - 1] == ([c] + r)[..|q|][1..];
    }
    if c == q[0] && StartsWith(r, q[1..]) {
      assert ([c] + r)[..|q|] == [c] + r[..|q| - 1];
    }
  }

  /** Replacing a mark by inert text does not change whether the string
      starts with a run of mark characters. */
  lemma {:induction false} ReplaceKeepsStart(t: string, p: string, d: string, q: string)
    requires IsMark(p) && Inert(d)
    requires forall i :: 0 <= i < |q| ==> MarkChar(q[i])
    ensures StartsWith(Replace(t, p, d), q) <==> StartsWith(t, q)
    decreases |t|
  {
    if |t| < |p| || q == [] {
    } else if StartsWith(t, p) {
      assert t[0] == p[0];
      assert (d + Replace(t[|p|..], p, d))[0] == d[0];
    } else {
      var rest := Replace(t[1..], p, d);
      StartsWithCons(t[0], rest, q);
      StartsWithCons(t[0], t[1..], q);
      assert [t[0]] + t[1..] == t;
      ReplaceKeepsStart(t[1..], p, d, q[1..]);
    }
  }

  /** Replacing one mark by inert text neither creates nor removes an
      occurrence of a different mark. */
  lemma {:induction false} ReplaceKeepsOtherMark(s: string, p: string, d: string, m: string)
    requires IsMark(p) && IsMark(m) && Inert(d)
    requires p[1] != m[1]
    ensures Contains(Replace(s, p, d), m) <==> Contains(s, m)
    decreases |s|
  {
    if |s| < |p| {
    } else if StartsWith(s, p) {
      var tail := s[|p|..];
      ReplaceKeepsOtherMark(tail, p, d, m);
      ContainsSkipsPrefix(d, Replace(tail, p, d), m);
      assert !StartsWith(s, m) by {
        assert s[1] == p[1];
      }
      assert s[1..] == p[1..] + tail;
      ContainsSkipsPrefix(p[1..], tail, m);
    } else {
      var rest := Replace(s[1..], p, d);
      ReplaceKeepsOtherMark(s[1..], p, d, m);
      assert ([s[0]] + rest)[1..] == rest;
      StartsWithCons(s[0], rest, m);
      StartsWithCons(s[0], s[1..], m);
      assert [s[0]] + s[1..] == s;
      ReplaceKeepsStart(s[1..], p, d, m[1..]);
    }
  }

  /** After replacing a mark by inert text, the mark no longer occurs. */
  lemma {:induction false} ReplaceRemovesMark(s: string, p: string, d: string)
    requires IsMark(p) && Inert(d)
    ensures !Contains(Replace(s, p, d), p)
    decreases |s|
  {
    if |s| < |p| {
      ShortDoesNotContain(s, p);
    } else if StartsWith(s, p) {
      ReplaceRemovesMark(s[|p|..], p, d);
      ContainsSkipsPrefix(d, Replace(s[|p|..], p, d), p);
    } else {
      var rest := Replace(s[1..], p, d);
      ReplaceRemovesMark(s[1..], p, d);
      assert ([s[0]] + rest)[1..] == rest;
      StartsWithCons(s[0], rest, p);
      StartsWithCons(s[0], s[1..], p);
      assert [s[0]] + s[1..] == s;
      ReplaceKeepsStart(s[1..], p, d, p[1..]);
    }
  }

  // ---------------------------------------------------------------------------
  // Specification

  function OrDefault(v: Option<int>, default: int): int {
    if v.Some? then v.value else default
  }

  /** The `date(...)` probe: the triple, with 2022/12/1 for missing parts, is a real date. */
  predicate DefaultsFormDate(year: Option<int>, month: Option<int>, day: Option<int>) {
    Calendar.IsValidDate(OrDefault(year, DefaultYear), OrDefault(month, DefaultMonth), OrDefault(day, DefaultDay))
  }

  /** Some supplied component has no mark in the ORIGINAL scheme. */
  predicate SomeMarkMissing(scheme: string, values: seq<Option<int>>)
    requires |values| == |Marks|
  {
    exists k :: 0 <= k < |Marks| && values[k].Some? && !Contains(scheme, Marks[k])
  }

  /** The first position from `from` on whose component is supplied but
      whose mark the ORIGINAL scheme lacks: the mark the loop reports. */
  function FirstMissing(scheme: string, values: seq<Option<int>>, from: nat): (r: Option<nat>)
    requires |values| == |Marks| && from <= |Marks|
    ensures r.None? <==> forall k :: from <= k < |Marks| ==> values[k].None? || Contains(scheme, Marks[k])
    ensures r.Some? ==> from <= r.value < |Marks| && values[r.value].Some? && !Contains(scheme, Marks[r.value])
    ensures r.Some? ==> forall k :: from <= k < r.value ==> values[k].None? || Contains(scheme, Marks[k])
    decreases |Marks| - from
  {
    if from == |Marks| then None
    else if values[from].Some? && !Contains(scheme, Marks[from]) then Some(from)
    else FirstMissing(scheme, values, from + 1)
  }

  /** Replaces the mark when its component is supplied. */
  function Substitute(s: string, mark: string, v: Option<int>): string
    requires |mark| > 0
  {
    if v.Some? then Replace(s, mark, Decimal(v.value)) else s
  }

  /** The scheme with the first `k` marks substituted, in the order year, month, day. */
  function Filled(scheme: string, values: seq<Option<int>>, k: nat): string
    requires |values| == |Marks| && k <= |Marks|
  {
    if k == 0 then scheme else Substitute(Filled(scheme, values, k - 1), Marks[k - 1], values[k - 1])
  }

  /** The defaulted triple fits the C `int` range that `date(...)` reads it into. */
  predicate DefaultsFitCInts(year: Option<int>, month: Option<int>, day: Option<int>) {
    Calendar.FitCInts(OrDefault(year, DefaultYear), OrDefault(month, DefaultMonth), OrDefault(day, DefaultDay))
  }

  /** What `fill_scheme_string` returns or raises, stated on the original scheme. */
  function FillScheme(scheme: string, year: Option<int>, month: Option<int>, day: Option<int>): Result<string> {
    if !DefaultsFitCInts(year, month, day) then Err(OverflowError)
    else if !DefaultsFormDate(year, month, day) then Err(ValueError)
    else match FirstMissing(scheme, [year, month, day], 0)
      case Some(k) => Err(KeyError(Marks[k]))
      case None => Ok(Filled(scheme, [year, month, day], |Marks|))
  }

  // ---------------------------------------------------------------------------
  // The imperative procedure

  /** The loop of the source: it tests each mark on the scheme as rebound by
      the previous replacements, and still agrees with `FillScheme`. */
  method FillSchemeString(scheme: string, year: Option<int>, month: Option<int>, day: Option<int>)
    returns (r: Result<string>)
    ensures r == FillScheme(scheme, year, month, day)
  {
    var testYear := if year.Some? then year.value else DefaultYear;
    var testMonth := if month.Some? then month.value else DefaultMonth;
    var testDay := if day.Some? then day.value else DefaultDay;
    var probe := Calendar.MakeDate(testYear, testMonth, testDay);
    Calendar.MakeDateOutcomes(testYear, testMonth, testDay);
    if probe.Err? {
      return Err(probe.error);
    }
    MarksAreDistinctMarks();
    var dateElements := [year, month, day];
    var filled := scheme;
    var k := 0;
    while k < |Marks|
      invariant 0 <= k <= |Marks|
      invariant filled == Filled(scheme, dateElements, k)
      invariant forall j :: 0 <= j < k && dateElements[j].Some? ==> Contains(scheme, Marks[j])
      invariant forall j :: k <= j < |Marks| ==> (Contains(filled, Marks[j]) <==> Contains(scheme, Marks[j]))
    {
      if dateElements[k].Some? {
        if !Contains(filled, Marks[k]) {
          assert FirstMissing(scheme, dateElements, 0) == Some(k);
          return Err(KeyError(Marks[k]));
        }
        var text := Decimal(dateElements[k].value);
        DecimalIsInert(dateElements[k].value);
        forall j | k < j < |Marks|
          ensures Contains(Replace(filled, Marks[k], text), Marks[j]) <==> Contains(filled, Marks[j])
        {
          ReplaceKeepsOtherMark(filled, Marks[k], text, Marks[j]);
        }
        filled := Replace(filled, Marks[k], text);
      }
      k := k + 1;
    }
    assert FirstMissing(scheme, dateElements, 0).None?;
    return Ok(filled);
  }

  // ---------------------------------------------------------------------------
  // Properties of the specification

  /** With no component supplied the scheme comes back unchanged. */
  lemma FillWithNothingIsIdentity(scheme: string)
    ensures FillScheme(scheme, None, None, None) == Ok(scheme)
  {
    assert Calendar.IsValidDate(DefaultYear, DefaultMonth, DefaultDay);
    var values: seq<Option<int>> := [None, None, None];
    assert FirstMissing(scheme, values, 0).None?;
    assert Filled(scheme, values, 1) == scheme;
    assert Filled(scheme, values, 2) == scheme;
  }

  /** `ValueError` exactly when the defaulted triple fits C `int`s but is no
      date, whatever the scheme holds: the date check comes before any mark check. */
  lemma FillValueErrorIffInvalidDate(scheme: string, year: Option<int>, month: Option<int>, day: Option<int>)
    ensures FillScheme(scheme, year, month, day) == Err(ValueError)
        <==> DefaultsFitCInts(year, month, day) && !DefaultsFormDate(year, month, day)
  {
  }

  /** `OverflowError` exactly when a component, or its default, lies outside
      the C `int` range, whatever the scheme holds. */
  lemma FillOverflowErrorIffOutOfRange(scheme: string, year: Option<int>, month: Option<int>, day: Option<int>)
    ensures FillScheme(scheme, year, month, day) == Err(OverflowError) <==> !DefaultsFitCInts(year, month, day)
  {
  }

  /** Year 2**31 does not fit a C `int`: `OverflowError`, not `ValueError`. */
  lemma FillOverflowExample(scheme: string)
    ensures FillScheme(scheme, Some(0x8000_0000), None, None) == Err(OverflowError)
  {
  }

  /** `KeyError` exactly when the date is valid and some supplied component's
      mark is absent from the scheme. */
  lemma FillKeyErrorIffMarkMissing(scheme: string, year: Option<int>, month: Option<int>, day: Option<int>)
    ensures IsKeyError(FillScheme(scheme, year, month, day))
        <==> DefaultsFormDate(year, month, day) && SomeMarkMissing(scheme, [year, month, day])
  {
    var values := [year, month, day];
    if DefaultsFormDate(year, month, day) {
      Calendar.ValidDateFitsCInts(OrDefault(year, DefaultYear), OrDefault(month, DefaultMonth), OrDefault(day, DefaultDay));
      if SomeMarkMissing(scheme, values) {
        var k :| 0 <= k < |Marks| && values[k].Some? && !Contains(scheme, Marks[k]);
        assert FirstMissing(scheme, values, 0).Some?;
      }
    }
  }

  /** A `KeyError` names the FIRST supplied mark, in the order year, month,
      day, that the original scheme lacks, and no other. */
  lemma FillKeyErrorNamesFirstMissing(scheme: string, year: Option<int>, month: Option<int>, day: Option<int>, k: int)
    requires 0 <= k < |Marks|
    ensures var values := [year, month, day];
      (FillScheme(scheme, year, month, day) == Err(KeyError(Marks[k])))
        <==> (DefaultsFormDate(year, month, day) && values[k].Some? && !Contains(scheme, Marks[k])
              && forall j :: 0 <= j < k ==> values[j].None? || Contains(scheme, Marks[j]))
  {
    var values := [year, month, day];
    var r := FillScheme(scheme, year, month, day);
    if DefaultsFormDate(year, month, day) {
      Calendar.ValidDateFitsCInts(OrDefault(year, DefaultYear), OrDefault(month, DefaultMonth), OrDefault(day, DefaultDay));
    }
    if r == Err(KeyError(Marks[k])) {
      var first := FirstMissing(scheme, values, 0);
      assert first.Some? && Marks[first.value] == Marks[k];
      assert first.value == k;
    }
  }

  /** After the first `k` substitutions the supplied marks among them are gone
      and every other mark occurs exactly when it occurred in the scheme. */
  lemma {:induction false} FilledMarks(scheme: string, values: seq<Option<int>>, k: nat)
    requires |values| == |Marks| && k <= |Marks|
    ensures forall j :: 0 <= j < k && values[j].Some? ==> !Contains(Filled(scheme, values, k), Marks[j])
    ensures forall j :: 0 <= j < |Marks| && (k <= j || values[j].None?) ==>
      (Contains(Filled(scheme, values, k), Marks[j]) <==> Contains(scheme, Marks[j]))
  {
    MarksAreDistinctMarks();
    if k > 0 {
      FilledMarks(scheme, values, k - 1);
      var prev := Filled(scheme, values, k - 1);
      if values[k - 1].Some? {
        var text := Decimal(values[k - 1].value);
        DecimalIsInert(values[k - 1].value);
        ReplaceRemovesMark(prev, Marks[k - 1], text);
        forall j | 0 <= j < |Marks| && j != k - 1
          ensures Contains(Replace(prev, Marks[k - 1], text), Marks[j]) <==> Contains(prev, Marks[j])
        {
          ReplaceKeepsOtherMark(prev, Marks[k - 1], text, Marks[j]);
        }
      }
    }
  }

  /** On success no supplied mark is left, and the marks of components not
      supplied are untouched. */
  lemma FillSuccessMarks(scheme: string, year: Option<int>, month: Option<int>, day: Option<int>)
    requires FillScheme(scheme, year, month, day).Ok?
    ensures var values, r := [year, month, day], FillScheme(scheme, year, month, day).value;
      forall j :: 0 <= j < |Marks| ==>
        (values[j].Some? ==> !Contains(r, Marks[j])) &&
        (values[j].None? ==> (Contains(r, Marks[j]) <==> Contains(scheme, Marks[j])))
  {
    FilledMarks(scheme, [year, month, day], |Marks|);
  }

  lemma DecimalExample()
    ensures Decimal(2024) == "2024"
  {
    assert Digits(2) == "2";
    assert Digits(20) == "20";
    assert Digits(202) == "202";
  }

  lemma NoYearInMonthTail()
    ensures !Contains("-{month}", YearMark)
  {
    NoYearInMonth();
    assert "-" + "{month}" == "-{month}";
    ContainsSkipsPrefix("-", "{month}", YearMark);
  }

  lemma ReplaceYearExample()
    ensures Replace("{year}-{month}", YearMark, "2024") == "2024-{month}"
  {
    var scheme, rest := "{year}-{month}", "-{month}";
    assert Replace(rest, YearMark, "2024") == rest by {
      NoYearInMonthTail();
      ReplaceAbsentIsIdentity(rest, YearMark, "2024");
    }
    assert Replace(scheme, YearMark, "2024") == "2024" + Replace(rest, YearMark, "2024") by {
      assert StartsWith(scheme, YearMark) && scheme[|YearMark|..] == rest;
    }
    assert "2024" + rest == "2024-{month}";
  }

  /** `"{year}-{month}"` with year 2024 gives `"2024-{month}"`. */
  lemma FillYearOnlyExample()
    ensures FillScheme("{year}-{month}", Some(2024), None, None) == Ok("2024-{month}")
  {
    var scheme := "{year}-{month}";
    var values: seq<Option<int>> := [Some(2024), None, None];
    assert FirstMissing(scheme, values, 0).None? by {
      assert Contains(scheme, Marks[0]) by {
        assert StartsWith(scheme, YearMark);
      }
      forall k | 0 <= k < |Marks| && values[k].Some? ensures Contains(scheme, Marks[k]) {
        assert k == 0;
      }
    }
    assert Filled(scheme, values, 3) == "2024-{month}" by {
      DecimalExample();
      ReplaceYearExample();
      var once := Substitute(scheme, Marks[0], values[0]);
      assert once == "2024-{month}";
      assert Filled(scheme, values, 1) == once;
      assert Filled(scheme, values, 2) == once;
    }
    assert DefaultsFitCInts(Some(2024), None, None) && DefaultsFormDate(Some(2024), None, None);
  }

  /** `"{year}-{month}"` with day 1 raises `KeyError` for `{day}`. */
  lemma FillMissingDayExample()
    ensures FillScheme("{year}-{month}", None, None, Some(1)) == Err(KeyError(DayMark))
  {
    var scheme := "{year}-{month}";
    var values: seq<Option<int>> := [None, None, Some(1)];
    assert DefaultsFitCInts(None, None, Some(1)) && DefaultsFormDate(None, None, Some(1));
    assert FirstMissing(scheme, values, 0) == Some(2) by {
      NoDayInYearMonth();
      assert values[2].Some? && !Contains(scheme, Marks[2]);
    }
  }

  /** `"{month}"` with year 2024 and day 1 lacks both `{year}` and `{day}`;
      the year is checked first, so `KeyError` names `{year}`. */
  lemma FillReportsYearBeforeDayExample()
    ensures FillScheme("{month}", Some(2024), None, Some(1)) == Err(KeyError(YearMark))
  {
    var scheme := "{month}";
    var values: seq<Option<int>> := [Some(2024), None, Some(1)];
    assert DefaultsFitCInts(Some(2024), None, Some(1)) && DefaultsFormDate(Some(2024), None, Some(1));
    assert FirstMissing(scheme, values, 0) == Some(0) by {
      NoYearInMonth();
      assert values[0].Some? && !Contains(scheme, Marks[0]);
    }
  }

  /** `"{year}"` with month 1 and day 1: the year is not supplied, so the
      first missing mark checked is `{month}`. */
  lemma FillReportsMonthExample()
    ensures FillScheme("{year}", None, Some(1), Some(1)) == Err(KeyError(MonthMark))
  {
    var scheme := "{year}";
    var values: seq<Option<int>> := [None, Some(1), Some(1)];
    assert DefaultsFitCInts(None, Some(1), Some(1)) && DefaultsFormDate(None, Some(1), Some(1));
    assert FirstMissing(scheme, values, 0) == Some(1) by {
      ShortDoesNotContain(scheme, MonthMark);
      assert values[1].Some? && !Contains(scheme, Marks[1]);
    }
  }

  lemma NoYearInMonth()
    ensures !Contains("{month}", YearMark)
  {
    ShortDoesNotContain("", YearMark);
    assert "month}" + "" == "month}";
    ContainsSkipsPrefix("month}", "", YearMark);
    assert !StartsWith("{month}", YearMark) by {
      assert "{month}"[..6][1] == 'm';
    }
    assert "{month}"[1..] == "month}";
  }

  lemma NoDayInYearMonth()
    ensures !Contains("{year}-{month}", DayMark)
  {
    var scheme := "{year}-{month}";
    ShortDoesNotContain("", DayMark);
    assert "month}" + "" == "month}";
    ContainsSkipsPrefix("month}", "", DayMark);
    assert !StartsWith("{month}", DayMark) by {
      assert "{month}"[..5][1] == 'm';
    }
    assert "{month}"[1..] == "month}";
    assert !Contains("{month}", DayMark);
    assert "year}-" + "{month}" == scheme[1..];
    ContainsSkipsPrefix("year}-", "{month}", DayMark);
    assert !StartsWith(scheme, DayMark) by {
      assert scheme[..5][1] == 'y';
    }
  }

  /** February 29 without a year fails: the default year 2022 is no leap year. */
  lemma FillLeapDayWithoutYearExample(scheme: string)
    ensures FillScheme(scheme, None, Some(2), Some(29)) == Err(ValueError)
  {
  }
}
