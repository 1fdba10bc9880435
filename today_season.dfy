/**
 * The month-and-day approximation of the season that the "mass of today"
 * endpoint uses, and how it compares with the Easter-based engine.
 */
module TodaySeason {
  import opened LiturgicalTypes
  import opened CivilCalendar
  import LiturgicalCalendar

  /**
   * `getCurrentLiturgicalSeason`: fixed month-and-day ranges, tried in the
   * order Advent, Christmas, Lent, Easter; everything else is Ordinary Time.
   * No range yields Holy Week.
   */
  function GetCurrentLiturgicalSeason(date: Date): (s: Season)
    requires date.Valid()
    ensures s != HolyWeek
    ensures s == OrdinaryTime ==> date.month in {1, 2, 6, 7, 8, 9, 10, 11}
  {
    var month := date.month;
    var day := date.day;
    if (month == 11 && day >= 27) || (month == 12 && day <= 24) then Advent
    else if (month == 12 && day >= 25) || (month == 1 && day <= 13) then Christmas
    else if (month == 2 && day >= 15) || (month == 3 && day <= 31) then Lent
    else if month == 4 || month == 5 || (month == 6 && day <= 15) then Easter
    else OrdinaryTime
  }

  /**
   * The ranges the approximation gives each season; they do not overlap, so
   * the order of the tests does not matter, and the year plays no part.
   */
  lemma {:induction false} ApproximateSeasonRanges(date: Date)
    requires date.Valid()
    ensures var s := GetCurrentLiturgicalSeason(date);
      var (month, day) := (date.month, date.day);
      && (s == Advent <==> (month == 11 && day >= 27) || (month == 12 && day <= 24))
      && (s == Christmas <==> (month == 12 && day >= 25) || (month == 1 && day <= 13))
      && (s == Lent <==> (month == 2 && day >= 15) || month == 3)
      && (s == Easter <==> month == 4 || month == 5 || (month == 6 && day <= 15))
      && (s == OrdinaryTime <==> (month == 1 && day >= 14) || (month == 2 && day <= 14)
                                 || (month == 6 && day >= 16) || 7 <= month <= 10 || (month == 11 && day <= 26))
  {
  }

  /** Two dates with the same month and day get the same approximate season, whatever their years. */
  lemma ApproximationIgnoresYear(a: Date, b: Date)
    requires a.Valid() && b.Valid() && a.month == b.month && a.day == b.day
    ensures GetCurrentLiturgicalSeason(a) == GetCurrentLiturgicalSeason(b)
  {
  }

  /**
   * From year 100 on, the approximation and the engine agree on December 3-24
   * (Advent), April 26 - May 10 (Easter), and January 14 - February 3 and
   * June 16 - November 26 (Ordinary Time).
   */
  lemma {:induction false} ApproximationAgreesWithEngine(date: Date)
    requires date.Valid() && date.year >= 100
    ensures date.month == 12 && 3 <= date.day <= 24 ==>
      GetCurrentLiturgicalSeason(date) == LiturgicalCalendar.GetLiturgicalSeason(date) == Advent
    ensures (date.month == 4 && date.day >= 26) || (date.month == 5 && date.day <= 10) ==>
      GetCurrentLiturgicalSeason(date) == LiturgicalCalendar.GetLiturgicalSeason(date) == Easter
    ensures || (date.month == 1 && date.day >= 14) || (date.month == 2 && date.day <= 3)
            || (date.month == 6 && date.day >= 16) || 7 <= date.month <= 10 || (date.month == 11 && date.day <= 26) ==>
      GetCurrentLiturgicalSeason(date) == LiturgicalCalendar.GetLiturgicalSeason(date) == OrdinaryTime
  {
    if date.month == 12 && 3 <= date.day <= 24 {
      AgreeInAdvent(date);
    } else if (date.month == 4 && date.day >= 26) || (date.month == 5 && date.day <= 10) {
      AgreeInEasterSeason(date);
    } else if || (date.month == 1 && date.day >= 14) || (date.month == 2 && date.day <= 3)
              || (date.month == 6 && date.day >= 16) || 7 <= date.month <= 10 || (date.month == 11 && date.day <= 26) {
      AgreeInOrdinaryTime(date);
    }
  }

  lemma {:induction false} AgreeInAdvent(date: Date)
    requires date.Valid() && date.year >= 100 && date.month == 12 && 3 <= date.day <= 24
    ensures GetCurrentLiturgicalSeason(date) == LiturgicalCalendar.GetLiturgicalSeason(date) == Advent
  {
    var t := LiturgicalCalendar.GetLiturgicalDates(date.year);
    var (y, n) := (date.year, date.ToDay());
    assert FullYear(y) == y;
    assert t.adventStart <= DayOf(y, 12, 3) <= n < DayOf(y, 12, 25) == t.christmas;
  }

  lemma {:induction false} AgreeInEasterSeason(date: Date)
    requires date.Valid() && date.year >= 100
    requires (date.month == 4 && date.day >= 26) || (date.month == 5 && date.day <= 10)
    ensures GetCurrentLiturgicalSeason(date) == LiturgicalCalendar.GetLiturgicalSeason(date) == Easter
  {
    var t := LiturgicalCalendar.GetLiturgicalDates(date.year);
    var (y, n) := (date.year, date.ToDay());
    assert FullYear(y) == y;
    assert DayOf(y, 3, 22) <= t.easter <= DayOf(y, 4, 25);
    assert t.palmSunday < t.easter < n <= DayOf(y, 5, 10) <= t.pentecost;
    assert n < DayOf(y, 11, 27) <= t.adventStart < t.christmas;
  }

  lemma {:induction false} AgreeInOrdinaryTime(date: Date)
    requires date.Valid() && date.year >= 100
    requires || (date.month == 1 && date.day >= 14) || (date.month == 2 && date.day <= 3)
             || (date.month == 6 && date.day >= 16) || 7 <= date.month <= 10 || (date.month == 11 && date.day <= 26)
    ensures GetCurrentLiturgicalSeason(date) == LiturgicalCalendar.GetLiturgicalSeason(date) == OrdinaryTime
  {
    var t := LiturgicalCalendar.GetLiturgicalDates(date.year);
    var (y, n) := (date.year, date.ToDay());
    assert FullYear(y) == y;
    LiturgicalCalendar.EasterCycleWindow(y);
    assert n < DayOf(y, 11, 27) <= t.adventStart < t.christmas;
    if date.month <= 2 {
      assert n < DayOf(y, 2, 4) <= t.ashWednesday < t.palmSunday < t.easter;
    } else {
      assert DayOf(y, 6, 13) < n && t.pentecost <= DayOf(y, 6, 13);
    }
  }

  /**
   * The approximation's Christmas (December 25 - January 13) is Ordinary Time
   * for the engine, whose Christmas interval is empty.
   */
  lemma {:induction false} ApproximateChristmasIsEngineOrdinaryTime(date: Date)
    requires date.Valid() && date.year >= 0
    requires GetCurrentLiturgicalSeason(date) == Christmas
    ensures LiturgicalCalendar.GetLiturgicalSeason(date) == OrdinaryTime
  {
    if date.month == 12 {
      LiturgicalCalendar.LateDecemberIsOrdinaryTime(date);
    } else {
      LiturgicalCalendar.JanuaryIsOrdinaryTime(date);
    }
  }

  /** Wherever the engine says Holy Week (from year 0 on), the approximation says Lent or Easter. */
  lemma {:induction false} EngineHolyWeekIsApproximateLentOrEaster(date: Date)
    requires date.Valid() && date.year >= 0
    requires LiturgicalCalendar.GetLiturgicalSeason(date) == HolyWeek
    ensures GetCurrentLiturgicalSeason(date) in {Lent, Easter}
  {
    if date.year < 100 {
      LiturgicalCalendar.TwoDigitYearIsOrdinaryTime(date);
      assert false;
    }
    LiturgicalCalendar.EasterCycleWindow(date.year);
    LiturgicalCalendar.SeasonIntervals(date);
  }
}
