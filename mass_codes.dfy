/**
 * The mass-code scheme: saint codes `MMDD` with an optional upper-case variant
 * suffix, season codes (a season tag, a two-digit week and a one-digit
 * weekday) and common codes (anything else); their classifier, parsers and
 * constructors, and the next/previous steppers of the saint and season
 * families.
 */
module MassCodes {
  import opened Wrappers
  import opened Text
  import opened LiturgicalTypes
  import CivilCalendar

  datatype MassCodeType = Saint | Season | Common

  /** `^\d{4}[A-Z]*$`, which is also `^(\d{2})(\d{2})([A-Z]*)$`. */
  predicate IsSaintShape(code: string) {
    |code| >= 4 && AllDigits(code[..4]) && AllUpper(code[4..])
  }

  /** `^[A-Z]{1,2}\d+$`. */
  predicate IsSeasonShape(code: string) {
    || (|code| >= 2 && IsUpper(code[0]) && AllDigits(code[1..]))
    || (|code| >= 3 && IsUpper(code[0]) && IsUpper(code[1]) && AllDigits(code[2..]))
  }

  /**
   * `getMassCodeType`: the saint pattern is tried first, then the season
   * pattern. The two patterns never both match (one starts with a digit, the
   * other with a letter), so a code is a season code exactly when it has the
   * season shape.
   */
  function GetMassCodeType(code: string): (t: MassCodeType)
    ensures t == Saint <==> IsSaintShape(code)
    ensures t == Season <==> IsSeasonShape(code)
  {
    if IsSaintShape(code) then Saint
    else if IsSeasonShape(code) then Season
    else Common
  }

  /** A parsed saint code; the numbers are not range-checked. */
  datatype SaintCode = SaintCode(month: nat, day: nat, variant: Option<string>)

  /** A variant suffix as the saint pattern admits it: one or more upper-case letters. */
  predicate IsVariant(v: Option<string>) {
    v.Some? ==> |v.value| > 0 && AllUpper(v.value)
  }

  /** `parseSaintCode`: month and day from the two digit pairs; an empty suffix is no variant. */
  function ParseSaintCode(code: string): (r: Option<SaintCode>)
    ensures r.Some? <==> GetMassCodeType(code) == Saint
    ensures r.Some? ==> r.value.month < 100 && r.value.day < 100 && IsVariant(r.value.variant)
  {
    if IsSaintShape(code) then
      assert AllDigits(code[..2]) && AllDigits(code[2..4]);
      TwoDigitsOfParse(code[..2]);
      TwoDigitsOfParse(code[2..4]);
      Some(SaintCode(ParseDecimal(code[..2]), ParseDecimal(code[2..4]),
                     if |code| == 4 then None else Some(code[4..])))
    else None
  }

  /** A parsed season code. */
  datatype SeasonCode = SeasonCode(season: Season, week: nat, day: nat)

  /** The season tags of `parseSeasonCode`'s table. */
  function SeasonOfTag(tag: string): (r: Option<Season>)
    ensures r.Some? ==> 1 <= |tag| <= 2 && AllUpper(tag)
  {
    match tag
    case "A" => Some(Advent)
    case "N" => Some(Christmas)
    case "Q" => Some(Lent)
    case "S" => Some(HolyWeek)
    case "P" => Some(Easter)
    case "TO" => Some(OrdinaryTime)
    case _ => None
  }

  /** The tag table of `createSeasonCode`: the inverse of `SeasonOfTag`. */
  function TagOfSeason(s: Season): (tag: string)
    ensures SeasonOfTag(tag) == Some(s)
  {
    match s
    case Advent => "A"
    case Christmas => "N"
    case Lent => "Q"
    case HolyWeek => "S"
    case Easter => "P"
    case OrdinaryTime => "TO"
  }

  lemma TagsAreUnique(tag: string)
    requires SeasonOfTag(tag).Some?
    ensures TagOfSeason(SeasonOfTag(tag).value) == tag
  {
  }

  /** `^([A-Z]{1,2})(\d{2})(\d)$`: one or two letters, then exactly three digits. */
  predicate IsSeasonCodeShape(code: string) {
    (|code| == 4 || |code| == 5) && AllUpper(code[..|code| - 3]) && AllDigits(code[|code| - 3..])
  }

  /** `parseSeasonCode`: `None` unless the shape matches and the tag is one of A, N, Q, S, P, TO. */
  function ParseSeasonCode(code: string): (r: Option<SeasonCode>)
    ensures r.Some? ==> GetMassCodeType(code) == Season && r.value.week < 100 && r.value.day < 10
    ensures r.Some? ==> |code| >= 4 && SeasonOfTag(code[..|code| - 3]) == Some(r.value.season)
  {
    if IsSeasonCodeShape(code) then
      var n := |code|;
      assert AllDigits(code[n - 3..n - 1]);
      TwoDigitsOfParse(code[n - 3..n - 1]);
      match SeasonOfTag(code[..n - 3])
      case None => None
      case Some(s) =>
        assert code[..n - 3] == [code[0]] || code[..n - 3] == [code[0], code[1]];
        Some(SeasonCode(s, ParseDecimal(code[n - 3..n - 1]), DigitValue(code[n - 1])))
    else None
  }

  /** The text of a variant suffix: empty when there is none. */
  function VariantText(variant: Option<string>): string {
    match variant case Some(v) => v case None => ""
  }

  /**
   * `createSaintCode`: month and day padded to two characters, then the
   * variant, if any; for month and day in 0..99 that is their two digits each.
   */
  function CreateSaintCode(month: int, day: int, variant: Option<string>): (code: string)
    ensures 0 <= month < 100 && 0 <= day < 100 ==> code == TwoDigits(month) + TwoDigits(day) + VariantText(variant)
  {
    var code := PadStart2(IntToString(month)) + PadStart2(IntToString(day)) + VariantText(variant);
    if 0 <= month < 100 && 0 <= day < 100 then
      PadsToTwoDigits(month);
      PadsToTwoDigits(day);
      code
    else code
  }

  /**
   * `createSeasonCode`: the tag, the week padded to two characters, then the
   * weekday; for a week in 0..99 and a weekday in 0..9 exactly three digits follow the tag.
   */
  function CreateSeasonCode(season: Season, week: int, day: int): (code: string)
    ensures 0 <= week < 100 && 0 <= day < 10 ==> code == TagOfSeason(season) + TwoDigits(week) + [DigitChar(day)]
  {
    var code := TagOfSeason(season) + PadStart2(IntToString(week)) + IntToString(day);
    if 0 <= week < 100 && 0 <= day < 10 then
      PadsToTwoDigits(week);
      OneDigit(day);
      code
    else code
  }

  /** Creating then parsing a saint code gives back its month, day and variant. */
  lemma {:induction false} SaintCodeRoundTrip(month: int, day: int, variant: Option<string>)
    requires 0 <= month < 100 && 0 <= day < 100 && IsVariant(variant)
    ensures ParseSaintCode(CreateSaintCode(month, day, variant)) == Some(SaintCode(month, day, variant))
  {
    PadsToTwoDigits(month);
    PadsToTwoDigits(day);
    TwoDigitsRoundTrip(month);
    TwoDigitsRoundTrip(day);
    var code := CreateSaintCode(month, day, variant);
    var suffix := match variant case Some(v) => v case None => "";
    assert code == TwoDigits(month) + TwoDigits(day) + suffix;
    assert code[..2] == TwoDigits(month) && code[2..4] == TwoDigits(day) && code[4..] == suffix;
  }

  /** Parsing then creating a saint code gives back the code. */
  lemma {:induction false} SaintCodeTextRoundTrip(code: string)
    requires ParseSaintCode(code).Some?
    ensures var p := ParseSaintCode(code).value; CreateSaintCode(p.month, p.day, p.variant) == code
  {
    var p := ParseSaintCode(code).value;
    TwoDigitsOfParse(code[..2]);
    TwoDigitsOfParse(code[2..4]);
    PadsToTwoDigits(p.month);
    PadsToTwoDigits(p.day);
    assert code == code[..2] + code[2..4] + code[4..];
  }

  /** Creating then parsing a season code gives back its season, week and weekday. */
  lemma {:induction false} SeasonCodeRoundTrip(season: Season, week: int, day: int)
    requires 0 <= week < 100 && 0 <= day < 10
    ensures ParseSeasonCode(CreateSeasonCode(season, week, day)) == Some(SeasonCode(season, week, day))
  {
    PadsToTwoDigits(week);
    TwoDigitsRoundTrip(week);
    OneDigit(day);
    var tag := TagOfSeason(season);
    var code := CreateSeasonCode(season, week, day);
    assert code == tag + TwoDigits(week) + [DigitChar(day)];
    var n := |code|;
    assert code[..n - 3] == tag && code[n - 3..n - 1] == TwoDigits(week) && code[n - 1] == DigitChar(day);
  }

  /** Parsing then creating a season code gives back the code. */
  lemma {:induction false} SeasonCodeTextRoundTrip(code: string)
    requires ParseSeasonCode(code).Some?
    ensures var p := ParseSeasonCode(code).value; CreateSeasonCode(p.season, p.week, p.day) == code
  {
    var p := ParseSeasonCode(code).value;
    var n := |code|;
    TagsAreUnique(code[..n - 3]);
    TwoDigitsOfParse(code[n - 3..n - 1]);
    PadsToTwoDigits(p.week);
    OneDigit(p.day);
    assert code == code[..n - 3] + code[n - 3..n - 1] + [code[n - 1]];
  }

  /**
   * The `daysInMonth` table: the month lengths of a common year (February has
   * 28 days); `None` where the array read is `undefined`.
   */
  function NonLeapMonthLength(month: int): (r: Option<nat>)
    ensures r.Some? <==> 1 <= month <= 12
    ensures r.Some? ==> r.value == CivilCalendar.DaysInMonth(1, month)
  {
    if 1 <= month <= 12 then Some([31, 28, 31, 30, 31, 30, 31, 31, 30, 31, 30, 31][month - 1]) else None
  }

  /** A month and day of a non-leap year. */
  predicate IsMonthDay(month: int, day: int) {
    1 <= month <= 12 && 1 <= day <= NonLeapMonthLength(month).value
  }

  /** Days of a non-leap year before the first of `month`: the month lengths summed. */
  function DaysBeforeMonth(month: int): nat
    requires 1 <= month <= 12
  {
    if month == 1 then 0 else DaysBeforeMonth(month - 1) + NonLeapMonthLength(month - 1).value
  }

  /** The summed table agrees with the calendar's own cumulative month offsets of a common year. */
  lemma {:induction false} DaysBeforeMonthAgreesWithCalendar(month: int)
    requires 1 <= month <= 12
    ensures DaysBeforeMonth(month) == CivilCalendar.DaysBeforeMonth(1, month)
  {
    if month > 1 {
      DaysBeforeMonthAgreesWithCalendar(month - 1);
    }
  }

  /** Reference numbering of the days of a non-leap year: January 1 is 1, December 31 is 365. */
  function DayOfYear(month: int, day: int): int
    requires 1 <= month <= 12
  {
    DaysBeforeMonth(month) + day
  }

  /**
   * The month-days of the table are the dates of the common year 1, and their
   * numbering is the calendar's day numbering of that year, counted from 1.
   */
  lemma {:induction false} MonthDayIsCommonYearDate(month: int, day: int)
    requires 1 <= month <= 12
    ensures IsMonthDay(month, day) <==> CivilCalendar.Date(1, month, day).Valid()
    ensures DayOfYear(month, day) == CivilCalendar.DayOf(1, month, day) + 1
  {
    DaysBeforeMonthAgreesWithCalendar(month);
  }

  /**
   * `getNextSaintCode`: `None` for an unparseable code and for December 31;
   * otherwise the following day of the non-leap table, without the variant.
   */
  function GetNextSaintCode(code: string): (r: Option<string>)
    ensures r.None? <==> (ParseSaintCode(code).None?
                          || (ParseSaintCode(code).value.month == 12 && ParseSaintCode(code).value.day == 31))
  {
    match ParseSaintCode(code)
    case None => None
    case Some(p) =>
      if p.month == 12 && p.day == 31 then None
      else if NonLeapMonthLength(p.month) == Some(p.day) then Some(CreateSaintCode(p.month + 1, 1, None))
      else Some(CreateSaintCode(p.month, p.day + 1, None))
  }

  /**
   * `getPreviousSaintCode`: `None` for an unparseable code and for January 1;
   * otherwise the preceding day of the non-leap table, without the variant.
   * On day 1 of a month outside 2..13 the table read is `undefined`, and
   * `undefined.toString()` throws.
   */
  function GetPreviousSaintCode(code: string): (r: Fallible<Option<string>>)
    ensures r == Returns(None) <==> (ParseSaintCode(code).None?
                                     || (ParseSaintCode(code).value.month == 1 && ParseSaintCode(code).value.day == 1))
    ensures r.Throws? <==> (ParseSaintCode(code).Some? && ParseSaintCode(code).value.day == 1
                           && (ParseSaintCode(code).value.month == 0 || ParseSaintCode(code).value.month >= 14))
  {
    match ParseSaintCode(code)
    case None => Returns(None)
    case Some(p) =>
      if p.month == 1 && p.day == 1 then Returns(None)
      else if p.day == 1 then
        match NonLeapMonthLength(p.month - 1)
        case None => Throws
        case Some(last) => Returns(Some(CreateSaintCode(p.month - 1, last, None)))
      else Returns(Some(CreateSaintCode(p.month, p.day - 1, None)))
  }

  /** From a day other than December 31, the next saint code is the bare code of the next day. */
  lemma {:induction false} NextSaintCodeIsNextDay(code: string)
    requires ParseSaintCode(code).Some?
    requires var p := ParseSaintCode(code).value; IsMonthDay(p.month, p.day) && !(p.month == 12 && p.day == 31)
    ensures var p := ParseSaintCode(code).value;
      && GetNextSaintCode(code).Some?
      && var q := ParseSaintCode(GetNextSaintCode(code).value);
      && q.Some? && q.value.variant.None? && IsMonthDay(q.value.month, q.value.day)
      && DayOfYear(q.value.month, q.value.day) == DayOfYear(p.month, p.day) + 1
  {
    var p := ParseSaintCode(code).value;
    var (m, d) := NextMonthDay(p.month, p.day);
    NextMonthDayIsNextDay(p.month, p.day);
    NextSaintCodeValue(code);
    SaintCodeRoundTrip(m, d, None);
  }

  /** The month and day `getNextSaintCode` steps to from a day of the non-leap table. */
  function NextMonthDay(month: int, day: int): (int, int)
    requires IsMonthDay(month, day) && !(month == 12 && day == 31)
  {
    if NonLeapMonthLength(month) == Some(day) then (month + 1, 1) else (month, day + 1)
  }

  lemma NextMonthDayIsNextDay(month: int, day: int)
    requires IsMonthDay(month, day) && !(month == 12 && day == 31)
    ensures var (m, d) := NextMonthDay(month, day);
      IsMonthDay(m, d) && DayOfYear(m, d) == DayOfYear(month, day) + 1 && m < 100 && d < 100
  {
  }

  lemma NextSaintCodeValue(code: string)
    requires ParseSaintCode(code).Some?
    requires var p := ParseSaintCode(code).value; IsMonthDay(p.month, p.day) && !(p.month == 12 && p.day == 31)
    ensures var p := ParseSaintCode(code).value;
      var (m, d) := NextMonthDay(p.month, p.day);
      GetNextSaintCode(code) == Some(CreateSaintCode(m, d, None))
  {
    var p := ParseSaintCode(code).value;
    assert ParseSaintCode(code) == Some(p);
  }

  /** The month and day `getPreviousSaintCode` steps to from a day of the non-leap table. */
  function PreviousMonthDay(month: int, day: int): (int, int)
    requires IsMonthDay(month, day) && !(month == 1 && day == 1)
  {
    if day == 1 then (month - 1, NonLeapMonthLength(month - 1).value) else (month, day - 1)
  }

  lemma PreviousMonthDayIsPreviousDay(month: int, day: int)
    requires IsMonthDay(month, day) && !(month == 1 && day == 1)
    ensures var (m, d) := PreviousMonthDay(month, day);
      IsMonthDay(m, d) && DayOfYear(m, d) == DayOfYear(month, day) - 1 && m < 100 && d < 100
  {
  }

  lemma PreviousSaintCodeValue(code: string)
    requires ParseSaintCode(code).Some?
    requires var p := ParseSaintCode(code).value; IsMonthDay(p.month, p.day) && !(p.month == 1 && p.day == 1)
    ensures var p := ParseSaintCode(code).value;
      var (m, d) := PreviousMonthDay(p.month, p.day);
      GetPreviousSaintCode(code) == Returns(Some(CreateSaintCode(m, d, None)))
  {
  }

  /** The two month-day steps undo each other. */
  lemma MonthDayStepsAreInverse(month: int, day: int)
    requires IsMonthDay(month, day)
    ensures !(month == 12 && day == 31) ==>
      var (m, d) := NextMonthDay(month, day);
      IsMonthDay(m, d) && !(m == 1 && d == 1) && PreviousMonthDay(m, d) == (month, day)
    ensures !(month == 1 && day == 1) ==>
      var (m, d) := PreviousMonthDay(month, day);
      IsMonthDay(m, d) && !(m == 12 && d == 31) && NextMonthDay(m, d) == (month, day)
  {
  }

  /** From a day other than January 1, the previous saint code is the bare code of the previous day. */
  lemma {:induction false} PreviousSaintCodeIsPreviousDay(code: string)
    requires ParseSaintCode(code).Some?
    requires var p := ParseSaintCode(code).value; IsMonthDay(p.month, p.day) && !(p.month == 1 && p.day == 1)
    ensures var p := ParseSaintCode(code).value;
      && GetPreviousSaintCode(code).Returns? && GetPreviousSaintCode(code).value.Some?
      && var q := ParseSaintCode(GetPreviousSaintCode(code).value.value);
      && q.Some? && q.value.variant.None? && IsMonthDay(q.value.month, q.value.day)
      && DayOfYear(q.value.month, q.value.day) == DayOfYear(p.month, p.day) - 1
  {
    var p := ParseSaintCode(code).value;
    var (m, d) := PreviousMonthDay(p.month, p.day);
    PreviousMonthDayIsPreviousDay(p.month, p.day);
    PreviousSaintCodeValue(code);
    SaintCodeRoundTrip(m, d, None);
  }

  /** On the days of a non-leap year, stepping forward then back (or back then forward) returns to the bare code. */
  lemma {:induction false} SaintStepsAreInverse(code: string)
    requires ParseSaintCode(code).Some?
    requires var p := ParseSaintCode(code).value; IsMonthDay(p.month, p.day)
    ensures var p := ParseSaintCode(code).value;
      var bare := CreateSaintCode(p.month, p.day, None);
      && (!(p.month == 12 && p.day == 31) ==>
            GetNextSaintCode(code).Some? && GetPreviousSaintCode(GetNextSaintCode(code).value) == Returns(Some(bare)))
      && (!(p.month == 1 && p.day == 1) ==>
            GetPreviousSaintCode(code).Returns? && GetPreviousSaintCode(code).value.Some?
            && GetNextSaintCode(GetPreviousSaintCode(code).value.value) == Some(bare))
  {
    var p := ParseSaintCode(code).value;
    if !(p.month == 12 && p.day == 31) {
      SaintNextThenPrevious(code);
    }
    if !(p.month == 1 && p.day == 1) {
      SaintPreviousThenNext(code);
    }
  }

  lemma {:induction false} SaintNextThenPrevious(code: string)
    requires ParseSaintCode(code).Some?
    requires var p := ParseSaintCode(code).value; IsMonthDay(p.month, p.day) && !(p.month == 12 && p.day == 31)
    ensures var p := ParseSaintCode(code).value;
      GetNextSaintCode(code).Some?
      && GetPreviousSaintCode(GetNextSaintCode(code).value) == Returns(Some(CreateSaintCode(p.month, p.day, None)))
  {
    var p := ParseSaintCode(code).value;
    MonthDayStepsAreInverse(p.month, p.day);
    var (m, d) := NextMonthDay(p.month, p.day);
    NextMonthDayIsNextDay(p.month, p.day);
    NextSaintCodeValue(code);
    var next := CreateSaintCode(m, d, None);
    SaintCodeRoundTrip(m, d, None);
    PreviousSaintCodeValue(next);
  }

  lemma {:induction false} SaintPreviousThenNext(code: string)
    requires ParseSaintCode(code).Some?
    requires var p := ParseSaintCode(code).value; IsMonthDay(p.month, p.day) && !(p.month == 1 && p.day == 1)
    ensures var p := ParseSaintCode(code).value;
      GetPreviousSaintCode(code).Returns? && GetPreviousSaintCode(code).value.Some?
      && GetNextSaintCode(GetPreviousSaintCode(code).value.value) == Some(CreateSaintCode(p.month, p.day, None))
  {
    var p := ParseSaintCode(code).value;
    MonthDayStepsAreInverse(p.month, p.day);
    var (m, d) := PreviousMonthDay(p.month, p.day);
    PreviousMonthDayIsPreviousDay(p.month, p.day);
    PreviousSaintCodeValue(code);
    var prev := CreateSaintCode(m, d, None);
    SaintCodeRoundTrip(m, d, None);
    NextSaintCodeValue(prev);
  }

  /** `getNextSeasonCode`: Saturday goes to the next week's Sunday, any other day to the next day; the tag is kept. */
  function GetNextSeasonCode(code: string): (r: Option<string>)
    ensures r.Some? <==> ParseSeasonCode(code).Some?
  {
    match ParseSeasonCode(code)
    case None => None
    case Some(p) =>
      if p.day == 6 then Some(CreateSeasonCode(p.season, p.week + 1, 0))
      else Some(CreateSeasonCode(p.season, p.week, p.day + 1))
  }

  /** `getPreviousSeasonCode`: `None` at week 1's Sunday; Sunday goes to the previous week's Saturday. */
  function GetPreviousSeasonCode(code: string): (r: Option<string>)
    ensures r.None? <==> (ParseSeasonCode(code).None?
                          || (ParseSeasonCode(code).value.day == 0 && ParseSeasonCode(code).value.week == 1))
  {
    match ParseSeasonCode(code)
    case None => None
    case Some(p) =>
      if p.day == 0 && p.week == 1 then None
      else if p.day == 0 then Some(CreateSeasonCode(p.season, p.week - 1, 6))
      else Some(CreateSeasonCode(p.season, p.week, p.day - 1))
  }

  /** Reference numbering of the days of a season: week `w`, weekday `d` is day `7 w + d`. */
  function SeasonPosition(p: SeasonCode): int {
    7 * p.week + p.day
  }

  /** Within weeks 0..99 and weekdays 0..6, the next season code is the next day of the same season. */
  lemma {:induction false} NextSeasonCodeIsNextDay(code: string)
    requires ParseSeasonCode(code).Some?
    requires var p := ParseSeasonCode(code).value; p.day <= 6 && (p.day == 6 ==> p.week < 99)
    ensures var p := ParseSeasonCode(code).value;
      var q := ParseSeasonCode(GetNextSeasonCode(code).value);
      && q.Some? && q.value.season == p.season && q.value.day <= 6
      && SeasonPosition(q.value) == SeasonPosition(p) + 1
  {
    var p := ParseSeasonCode(code).value;
    if p.day == 6 {
      SeasonCodeRoundTrip(p.season, p.week + 1, 0);
    } else {
      SeasonCodeRoundTrip(p.season, p.week, p.day + 1);
    }
  }

  /** Except at week 1's Sunday and before week 0's Monday, the previous season code is the previous day of the same season. */
  lemma {:induction false} PreviousSeasonCodeIsPreviousDay(code: string)
    requires ParseSeasonCode(code).Some?
    requires var p := ParseSeasonCode(code).value; p.day <= 6 && (p.day == 0 ==> p.week >= 2)
    ensures var p := ParseSeasonCode(code).value;
      && GetPreviousSeasonCode(code).Some?
      && var q := ParseSeasonCode(GetPreviousSeasonCode(code).value);
      && q.Some? && q.value.season == p.season && q.value.day <= 6
      && SeasonPosition(q.value) == SeasonPosition(p) - 1
  {
    var p := ParseSeasonCode(code).value;
    if p.day == 0 {
      SeasonCodeRoundTrip(p.season, p.week - 1, 6);
    } else {
      SeasonCodeRoundTrip(p.season, p.week, p.day - 1);
    }
  }

  /** Stepping a season code forward then back returns the code itself, unless the step crosses into week 1's Sunday or past week 99. */
  lemma {:induction false} SeasonNextThenPrevious(code: string)
    requires ParseSeasonCode(code).Some?
    requires var p := ParseSeasonCode(code).value; p.day < 6 || (p.day == 6 && 1 <= p.week < 99)
    ensures GetNextSeasonCode(code).Some? && GetPreviousSeasonCode(GetNextSeasonCode(code).value) == Some(code)
  {
    var p := ParseSeasonCode(code).value;
    var next := GetNextSeasonCode(code).value;
    if p.day == 6 {
      assert next == CreateSeasonCode(p.season, p.week + 1, 0);
      SeasonStepBack(p.season, p.week + 1, 0);
    } else {
      assert next == CreateSeasonCode(p.season, p.week, p.day + 1);
      SeasonStepBack(p.season, p.week, p.day + 1);
    }
    SeasonCodeTextRoundTrip(code);
  }

  /** The previous code of a created season code, away from week 1's Sunday. */
  lemma {:induction false} SeasonStepBack(season: Season, week: int, day: int)
    requires 0 <= week < 100 && 0 <= day < 10 && (day > 0 || week >= 2)
    ensures var back := if day == 0 then CreateSeasonCode(season, week - 1, 6) else CreateSeasonCode(season, week, day - 1);
      GetPreviousSeasonCode(CreateSeasonCode(season, week, day)) == Some(back)
  {
    SeasonCodeRoundTrip(season, week, day);
  }

  /** Stepping a season code back then forward returns the code itself, wherever the backward step exists. */
  lemma {:induction false} SeasonPreviousThenNext(code: string)
    requires ParseSeasonCode(code).Some?
    requires var p := ParseSeasonCode(code).value; p.day <= 6 && (p.day > 0 || p.week >= 2)
    ensures GetPreviousSeasonCode(code).Some? && GetNextSeasonCode(GetPreviousSeasonCode(code).value) == Some(code)
  {
    var p := ParseSeasonCode(code).value;
    SeasonCodeTextRoundTrip(code);
    if p.day == 0 {
      SeasonCodeRoundTrip(p.season, p.week - 1, 6);
    } else {
      SeasonCodeRoundTrip(p.season, p.week, p.day - 1);
    }
  }
}
