/**
 * The liturgical calendar engine: Easter by the Meeus/Jones/Butcher algorithm,
 * the movable and fixed dates of a year derived from it, the season of a
 * date, the default colour of a season and the week within a season.
 */
module LiturgicalCalendar {
  import opened LiturgicalTypes
  import opened CivilCalendar

  /** JavaScript's `%`, which truncates toward zero (Dafny's `%` is Euclidean). */
  function JsRem(x: int, n: int): (r: int)
    requires n > 0
    ensures -n < r < n
    ensures x >= 0 ==> r == x % n
  {
    if x >= 0 then x % n else -((-x) % n)
  }

  /** The computus term `h`: the age of the Paschal moon, in 0..29 from year 0 on. */
  function ComputusH(year: int): (h: int)
    ensures -30 < h < 30
    ensures year >= 0 ==> 0 <= h
  {
    var a := JsRem(year, 19);
    var b := year / 100;
    var d := b / 4;
    var f := (b + 8) / 25;
    var g := (b - f + 1) / 3;
    assert year >= 0 ==> 0 <= a && b - d - g >= 0;
    JsRem(19 * a + b - d - g + 15, 30)
  }

  /**
   * The computus sum `h + l - 7m + 114`: Easter is March 22 plus (sum - 114) days.
   * `Math.floor(x / n)` with `n > 0` is Dafny's `/`.
   */
  function ComputusSum(year: int): (x: int)
    ensures 72 <= x <= 163
    ensures year >= 0 ==> 114 <= x <= 148
  {
    var a := JsRem(year, 19);
    var b := year / 100;
    var c := JsRem(year, 100);
    var e := JsRem(b, 4);
    var h := ComputusH(year);
    var i := c / 4;
    var k := JsRem(c, 4);
    var l := JsRem(32 + 2 * e + 2 * i - h - k, 7);
    var m := (a + 11 * h + 22 * l) / 451;
    assert -2 <= m <= 1;
    assert year >= 0 ==> 0 <= c && 0 <= e && 0 <= i && 0 <= k <= 3;
    assert year >= 0 ==> 0 <= l && 0 <= m <= 1;
    h + l - 7 * m + 114
  }

  /**
   * `calculateEaster`: Easter Sunday of `year`. For every year the month is
   * 2..5 (for years before 0 the triple can carry a day past the end of its
   * month, as `new Date` normalises it); from year 0 on the date is a normal
   * day between March 22 and April 25. The date is built by `new Date`, so
   * the month and day computed for a year 0..99 land in 1900..1999.
   */
  function CalculateEaster(year: int): (r: Date)
    ensures r.year == FullYear(year) && 2 <= r.month <= 5
    ensures year >= 0 ==> r.Valid() && ((r.month == 3 && 22 <= r.day) || (r.month == 4 && r.day <= 25))
  {
    var x := ComputusSum(year);
    var month := x / 31;
    var day := JsRem(x, 31) + 1;
    Date(FullYear(year), month, day)
  }

  /** `isSunday` on a calendar day: the Sundays are whole weeks after January 7 of year 1, the first Sunday of the era. */
  function IsSunday(date: Date): (b: bool)
    requires date.Valid()
    ensures b <==> (date.ToDay() - DayOf(1, 1, 7)) % 7 == 0
  {
    assert DayOf(1, 1, 7) == 6;
    WeekdayAfter(date.ToDay() - 7, 7);
    Weekday(date.ToDay()) == 0
  }

  /** Leap days counted through the end of year `y`, by the rule of four, hundred and four hundred. */
  lemma {:induction false} LeapDaysThrough(y: int)
    ensures DaysBeforeYear(y) + (if IsLeapYear(y) then 1 else 0) == 365 * (y - 1) + y / 4 - y / 100 + y / 400
  {
    YearLength(y);
    MultipleStep(y);
  }

  /** Easter is `x - 114` days after March 22, where `x` is the computus sum. */
  lemma {:induction false} EasterFromMarch22(year: int)
    requires year >= 0
    ensures CalculateEaster(year).Valid()
    ensures CalculateEaster(year).ToDay() == DayOf(FullYear(year), 3, 22) + ComputusSum(year) - 114
  {
  }

  /** The weekday identity behind the computus, over the decomposition year = 400 d + 100 e + 4 i + k. */
  lemma ComputusWeekday(y: int, b: int, c: int, d: int, e: int, i: int, k: int, h: int, l: int, q: int, m: int)
    requires y == 100 * b + c && c == 4 * i + k && b == 4 * d + e
    requires l == 32 + 2 * e + 2 * i - h - k - 7 * q
    ensures (365 * (y - 1) + 25 * b + i - b + d + 80 + (h + l - 7 * m) + 1) % 7 == 0
  {
    assert h + l == 32 + 2 * e + 2 * i - k - 7 * q;
    assert y == 400 * d + 100 * e + 4 * i + k;
    assert 365 * (y - 1) + 25 * b + i - b + d + 80 + (h + l - 7 * m) + 1
        == 146097 * d + 36526 * e + 1463 * i + 364 * k - 252 - 7 * q - 7 * m;
    assert 365 * (y - 1) + 25 * b + i - b + d + 80 + (h + l - 7 * m) + 1
        == 7 * (20871 * d + 5218 * e + 209 * i + 52 * k - m - 36 - q);
  }

  /**
   * The computus is consistent with the weekday: Easter is always a Sunday
   * from year 100 on (for the years 0..99 `new Date` moves it to 1900..1999).
   */
  lemma {:induction false} EasterIsSunday(year: int)
    requires year >= 100
    ensures CalculateEaster(year).Valid() && IsSunday(CalculateEaster(year))
  {
    EasterDayNumber(year);
    ComputusCongruence(year);
  }

  /** The leap-day count of March 22 plus the computus sum is congruent to a Sunday. */
  lemma {:induction false} ComputusCongruence(y: int)
    requires y >= 0
    ensures (365 * (y - 1) + y / 4 - y / 100 + y / 400 + 80 + ComputusSum(y) - 114 + 1) % 7 == 0
  {
    var b := y / 100;
    var c := y % 100;
    var d := b / 4;
    var e := b % 4;
    var i := c / 4;
    var k := c % 4;
    var h := ComputusH(y);
    var ln := 32 + 2 * e + 2 * i - h - k;
    var q := ln / 7;
    var l := ln % 7;
    var m := (y % 19 + 11 * h + 22 * l) / 451;
    ComputusSumFromYear(y);
    assert y / 4 == 25 * b + i && y / 400 == d;
    ComputusWeekday(y, b, c, d, e, i, k, h, l, q, m);
  }

  /** From year 0 on, the truncating remainders of the computus are Euclidean ones. */
  lemma {:induction false} ComputusSumFromYear(y: int)
    requires y >= 0
    ensures var (b, c) := (y / 100, y % 100);
      var h := ComputusH(y);
      var l := (32 + 2 * (b % 4) + 2 * (c / 4) - h - c % 4) % 7;
      ComputusSum(y) == h + l - 7 * ((y % 19 + 11 * h + 22 * l) / 451) + 114
  {
    var (b, c) := (y / 100, y % 100);
    assert JsRem(y, 19) == y % 19 && JsRem(y, 100) == c && JsRem(b, 4) == b % 4 && JsRem(c, 4) == c % 4;
  }

  /** Easter's day number through the leap-day count of the computus. */
  lemma {:induction false} EasterDayNumber(year: int)
    requires year >= 100
    ensures CalculateEaster(year).Valid()
    ensures CalculateEaster(year).ToDay() == 365 * (year - 1) + year / 4 - year / 100 + year / 400 + 80 + ComputusSum(year) - 114
  {
    assert FullYear(year) == year;
    EasterFromMarch22(year);
    LeapDaysThrough(year);
  }

  /** The dated celebrations of one year, as day numbers. */
  datatype LiturgicalDates = LiturgicalDates(
    adventStart: Day, christmas: Day, epiphany: Day, baptismOfLord: Day,
    ashWednesday: Day, palmSunday: Day, holyThursday: Day, goodFriday: Day, holySaturday: Day,
    easter: Day, ascension: Day, pentecost: Day, allSaints: Day, allSouls: Day)

  /** `getPreviousSunday`: a Sunday strictly before `n`, in the `weeksBack`-th week back. */
  function PreviousSunday(n: Day, weeksBack: int): (r: Day)
    ensures Weekday(r) == 0
    ensures weeksBack >= 1 ==> n - 7 * weeksBack <= r < n - 7 * (weeksBack - 1)
  {
    var dayOfWeek := Weekday(n);
    var daysToSubtract := if dayOfWeek == 0 then 7 * weeksBack else dayOfWeek + 7 * (weeksBack - 1);
    n - daysToSubtract
  }

  /** `getNextSunday`: the first Sunday strictly after `n`. */
  function NextSunday(n: Day): (r: Day)
    ensures Weekday(r) == 0
    ensures n < r <= n + 7
  {
    var dayOfWeek := Weekday(n);
    var daysToAdd := if dayOfWeek == 0 then 7 else 7 - dayOfWeek;
    n + daysToAdd
  }

  /** `getLiturgicalDates`; every date is built by `new Date` in the year `FullYear(year)`. */
  function GetLiturgicalDates(year: int): (r: LiturgicalDates)
    ensures r.ashWednesday < r.palmSunday < r.holyThursday < r.goodFriday < r.holySaturday
         < r.easter < r.ascension < r.pentecost
    ensures r.easter == CalculateEaster(year).ToDay()
    ensures Weekday(r.adventStart) == 0 && DayOf(FullYear(year), 11, 27) <= r.adventStart <= DayOf(FullYear(year), 12, 3)
    ensures Weekday(r.baptismOfLord) == 0 && DayOf(FullYear(year), 1, 7) <= r.baptismOfLord <= DayOf(FullYear(year), 1, 13)
    ensures r.christmas == DayOf(FullYear(year), 12, 25) && r.epiphany == DayOf(FullYear(year), 1, 6)
    ensures r.allSaints == DayOf(FullYear(year), 11, 1) && r.allSouls == DayOf(FullYear(year), 11, 2)
  {
    var easter := CalculateEaster(year).ToDay();
    var y := FullYear(year);
    var christmas := DayOf(y, 12, 25);
    var epiphany := DayOf(y, 1, 6);
    LiturgicalDates(
      adventStart := PreviousSunday(christmas, 4),
      christmas := christmas,
      epiphany := epiphany,
      baptismOfLord := NextSunday(epiphany),
      ashWednesday := easter - 46,
      palmSunday := easter - 7,
      holyThursday := easter - 3,
      goodFriday := easter - 2,
      holySaturday := easter - 1,
      easter := easter,
      ascension := easter + 39,
      pentecost := easter + 49,
      allSaints := DayOf(y, 11, 1),
      allSouls := DayOf(y, 11, 2))
  }

  /** From year 0 on, the Easter cycle lies between February 4 and June 13. */
  lemma EasterCycleWindow(year: int)
    requires year >= 0
    ensures var t := GetLiturgicalDates(year);
      DayOf(FullYear(year), 2, 4) <= t.ashWednesday && t.pentecost <= DayOf(FullYear(year), 6, 13)
  {
    var e := CalculateEaster(year);
    assert DayOf(FullYear(year), 3, 22) <= e.ToDay() <= DayOf(FullYear(year), 4, 25);
  }

  /** The dates of a year (from year 0 on) follow each other in calendar order. */
  lemma {:induction false} DatesInCalendarOrder(year: int)
    requires year >= 0
    ensures var t := GetLiturgicalDates(year);
      t.epiphany < t.baptismOfLord < t.ashWednesday && t.pentecost < t.allSaints < t.allSouls
      && t.allSouls < t.adventStart < t.christmas
  {
    EasterCycleWindow(year);
  }

  /** From year 100 on, the movable feasts fall on their weekdays: Ash Wednesday, Palm Sunday, the Triduum, Ascension Thursday, Pentecost Sunday. */
  lemma {:induction false} MovableFeastWeekdays(year: int)
    requires year >= 100
    ensures var t := GetLiturgicalDates(year);
      Weekday(t.easter) == 0 && Weekday(t.palmSunday) == 0 && Weekday(t.pentecost) == 0
      && Weekday(t.ashWednesday) == 3 && Weekday(t.holyThursday) == 4 && Weekday(t.goodFriday) == 5
      && Weekday(t.holySaturday) == 6 && Weekday(t.ascension) == 4
  {
    var e := GetLiturgicalDates(year).easter;
    EasterIsSunday(year);
    assert Weekday(e) == 0;
    MovableFeastOffsets(year);
    WeekdaysAroundSunday(e);
  }

  /** The movable feasts lie at fixed offsets from Easter. */
  lemma MovableFeastOffsets(year: int)
    ensures var t := GetLiturgicalDates(year);
      && t.ashWednesday == t.easter - 46 && t.palmSunday == t.easter - 7 && t.holyThursday == t.easter - 3
      && t.goodFriday == t.easter - 2 && t.holySaturday == t.easter - 1
      && t.ascension == t.easter + 39 && t.pentecost == t.easter + 49
  {
  }

  /** The weekdays of the days at the movable feasts' offsets from a Sunday. */
  lemma {:induction false} WeekdaysAroundSunday(e: Day)
    requires Weekday(e) == 0
    ensures Weekday(e - 46) == 3 && Weekday(e - 7) == 0 && Weekday(e - 3) == 4 && Weekday(e - 2) == 5
    ensures Weekday(e - 1) == 6 && Weekday(e + 39) == 4 && Weekday(e + 49) == 0
  {
    WeekdayAfter(e, -46);
    WeekdayAfter(e, -7);
    WeekdayAfter(e, -3);
    WeekdayAfter(e, -2);
    WeekdayAfter(e, -1);
    WeekdayAfter(e, 39);
    WeekdayAfter(e, 49);
  }

  /** Moving `k` days moves the weekday by `k` modulo 7. */
  lemma WeekdayAfter(n: Day, k: int)
    ensures Weekday(n + k) == (Weekday(n) + k) % 7
  {
    var q := (n + 1) / 7;
    assert n + 1 == 7 * q + Weekday(n);
    assert n + k + 1 == 7 * q + (Weekday(n) + k);
  }

  /**
   * `getLiturgicalSeason`: the first interval of the year's dates that holds the
   * date. The Christmas interval runs from December 25 to the Baptism of the Lord
   * of the same year, which is in January, so it is empty.
   */
  function GetLiturgicalSeason(date: Date): (s: Season)
    requires date.Valid()
    ensures s != Christmas
  {
    var t := GetLiturgicalDates(date.year);
    var n := date.ToDay();
    var christmasEnd := t.baptismOfLord;
    if t.adventStart <= n < t.christmas then Advent
    else if t.christmas <= n <= christmasEnd then Christmas
    else if t.ashWednesday <= n < t.palmSunday then Lent
    else if t.palmSunday <= n < t.easter then HolyWeek
    else if t.easter <= n <= t.pentecost then Easter
    else OrdinaryTime
  }

  /** The season intervals are disjoint, so each season holds exactly on its own interval. */
  lemma {:induction false} SeasonIntervals(date: Date)
    requires date.Valid() && date.year >= 0
    ensures var t := GetLiturgicalDates(date.year);
      var n := date.ToDay();
      var s := GetLiturgicalSeason(date);
      && (s == Advent <==> t.adventStart <= n < t.christmas)
      && (s == Lent <==> t.ashWednesday <= n < t.palmSunday)
      && (s == HolyWeek <==> t.palmSunday <= n < t.easter)
      && (s == Easter <==> t.easter <= n <= t.pentecost)
      && (s == OrdinaryTime <==> !(t.adventStart <= n < t.christmas) && !(t.ashWednesday <= n <= t.pentecost))
  {
    DatesInCalendarOrder(date.year);
  }

  /**
   * A date of the years 0..99 is Ordinary Time: the dates it is compared with
   * are built by `new Date` in 1900..1999, so it precedes every interval.
   */
  lemma {:induction false} TwoDigitYearIsOrdinaryTime(date: Date)
    requires date.Valid() && 0 <= date.year < 100
    ensures GetLiturgicalSeason(date) == OrdinaryTime
  {
    var y := FullYear(date.year);
    var t := GetLiturgicalDates(date.year);
    EasterCycleWindow(date.year);
    assert DaysBeforeYear(date.year) <= 365 * 98 + 24;
    assert date.ToDay() < 40000;
    assert 1900 <= y < 2000 && DaysBeforeYear(y) >= 365 * 1899;
    assert DayOf(y, 2, 4) >= 40000 && DayOf(y, 11, 27) >= 40000;
    assert date.ToDay() < t.adventStart < t.christmas;
    assert date.ToDay() < t.ashWednesday < t.palmSunday < t.easter;
  }

  /** December 25-31 fall in no interval: they are Ordinary Time. */
  lemma {:induction false} LateDecemberIsOrdinaryTime(date: Date)
    requires date.Valid() && date.year >= 0 && date.month == 12 && date.day >= 25
    ensures GetLiturgicalSeason(date) == OrdinaryTime
  {
    if date.year < 100 {
      TwoDigitYearIsOrdinaryTime(date);
    } else {
      EasterCycleWindow(date.year);
    }
  }

  /** January, including the days up to the Baptism of the Lord, is Ordinary Time. */
  lemma {:induction false} JanuaryIsOrdinaryTime(date: Date)
    requires date.Valid() && date.year >= 0 && date.month == 1
    ensures GetLiturgicalSeason(date) == OrdinaryTime
  {
    if date.year < 100 {
      TwoDigitYearIsOrdinaryTime(date);
    } else {
      EasterCycleWindow(date.year);
    }
  }

  /** `getSeasonColor`. */
  function GetSeasonColor(s: Season): (c: LiturgicalColor)
    ensures c == Purple <==> s == Advent || s == Lent
    ensures c == White <==> s == Christmas || s == Easter
    ensures c == Red <==> s == HolyWeek
    ensures c == Green <==> s == OrdinaryTime
  {
    match s
    case Advent => Purple
    case Christmas => White
    case OrdinaryTime => Green
    case Lent => Purple
    case HolyWeek => Red
    case Easter => White
  }

  function Abs(x: int): nat { if x < 0 then -x else x }

  function Min(x: int, y: int): int { if x <= y then x else y }

  /** The first day of the season that `GetWeekOfSeason` counts from, with the last week it reports. */
  function SeasonStart(t: LiturgicalDates, season: Season): Day
  {
    match season
    case Advent => t.adventStart
    case Lent => t.ashWednesday
    case _ => t.easter
  }

  function WeekCap(season: Season): nat
  {
    match season
    case Advent => 4
    case Lent => 6
    case Easter => 7
    case _ => 0
  }

  /**
   * `getWeekOfSeason` at whole-day granularity: whole weeks between the date and
   * the start of its season, plus one, capped; 0 for seasons without a count.
   */
  function GetWeekOfSeason(date: Date, season: Season): (w: int)
    requires date.Valid()
    ensures season == Advent ==> 1 <= w <= 4
    ensures season == Lent ==> 1 <= w <= 6
    ensures season == Easter ==> 1 <= w <= 7
    ensures season !in {Advent, Lent, Easter} ==> w == 0
  {
    var year := date.year;
    var n := date.ToDay();
    var t := GetLiturgicalDates(year);
    match season
    case Advent => Min(Abs(n - t.adventStart) / 7 + 1, 4)
    case Lent => Min(Abs(n - t.ashWednesday) / 7 + 1, 6)
    case Easter => Min(Abs(n - t.easter) / 7 + 1, 7)
    case _ => 0
  }

  /** On or after the start of a counted season, the week number is the week that holds the date, the last week absorbing the rest. */
  lemma {:induction false} WeekHoldsDate(date: Date, season: Season)
    requires date.Valid() && season in {Advent, Lent, Easter}
    requires SeasonStart(GetLiturgicalDates(date.year), season) <= date.ToDay()
    ensures var start := SeasonStart(GetLiturgicalDates(date.year), season);
      var w := GetWeekOfSeason(date, season);
      start + 7 * (w - 1) <= date.ToDay() && (date.ToDay() < start + 7 * w || w == WeekCap(season))
  {
    var start := SeasonStart(GetLiturgicalDates(date.year), season);
    var diff := date.ToDay() - start;
    assert 7 * (diff / 7) <= diff < 7 * (diff / 7) + 7;
  }
}
