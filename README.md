# Missale core in Dafny

A model of the computational core of the Missale web missal. The core has five parts:

- **The liturgical calendar engine.** It computes Easter by the Meeus/Jones/Butcher algorithm and derives the movable and fixed celebrations of a year from it. It also classifies a date into a season, maps a season to its default colour, and numbers the weeks of Advent, Lent and Easter.
- **The mass-code scheme.** Saint codes are `MMDD` plus an optional upper-case variant. Season codes are a tag, a two-digit week and a one-digit weekday. Common codes are anything else. The scheme has a classifier, parsers, constructors and day-by-day steppers.
- **Navigation.** It finds the next or previous stored mass of a code's family.
- **The month-and-day season approximation** of the "mass of today" endpoint.
- **The importer's derivations.** From a scraped mass it derives rank and colour, season, category, and month and day.

Dates are whole days. A `CivilCalendar.Date` is a proleptic Gregorian (year, month, day). Every date the engine derives by an offset is a day number: days since 0001-01-01, which was a Monday. The day of the month enters `DayOf` linearly, so an out-of-range day carries into the neighbouring month the way JavaScript's `Date` constructor and `setDate` carry it. `CivilCalendar.DaysAreConsecutive` proves the numbering has no gaps.

JavaScript's `%` truncates toward zero, so it is modelled by `JsRem`.

The `Date` constructor reads a year from 0 to 99 as 1900 to 1999. `CivilCalendar.FullYear` models that reading, and every date the engine constructs from a year goes through it.

Thrown exceptions are a `Fallible` result. `getPreviousSaintCode` reads past its month table on day 1 of month 0 or of a month from 14 on. It then calls `toString()` on `undefined` and throws. `getPreviousMass` propagates that exception.

The record store is an immutable sequence in row order. Each Prisma `findFirst` is a filter plus an ordering, evaluated by `MassNavigation.FindFirst`:

- It returns a matching row that no matching row precedes.
- Among rows the ordering does not separate, it returns the first in row order.
- Without an ordering, that means the first match in row order.

Strings compare code unit by code unit (`Text.LexLe`), and `startsWith` is case-sensitive.

The engine is modelled as written. Its Christmas interval runs from December 25 to the Baptism of the Lord of the same year, which falls in January, so the interval is empty. `GetLiturgicalSeason` never answers Christmas. December 25-31 and early January are Ordinary Time (`LateDecemberIsOrdinaryTime`, `JanuaryIsOrdinaryTime`). The approximation in the "today" endpoint calls those days Christmas (`ApproximateChristmasIsEngineOrdinaryTime`).

Saint navigation has an asymmetry:

- The forward search after a missing day compares codes with `>=`, so it reaches a day whose only mass carries a variant suffix (`WorkedCases.NextSaintReachesVariantOnlyDay`).
- The backward search compares with `<=`, which such a code fails, so it skips that day (`WorkedCases.PreviousSaintSkipsVariantOnlyDay`).

Files:

- `wrappers.dfy`: `Option`, `Fallible`
- `liturgical_types.dfy`: season, colour, rank, category
- `civil_calendar.dfy`: dates and day numbers
- `liturgical_calendar.dfy`: the engine
- `text.dfy`: the string built-ins the code relies on
- `mass_codes.dfy`: the code scheme
- `mass_navigation.dfy`: navigation
- `today_season.dfy`: the approximation
- `mass_import.dfy`: the importer's derivations
- `worked_cases.dfy`: concrete instances

## Model

| member | source | states |
|---|---|---|
| `CivilCalendar.DaysInMonth` | lib/liturgical-calendar.ts:23 | month lengths of the Gregorian calendar that `new Date` normalises by: 28..31 days, 29 exactly for February of a leap year |
| `CivilCalendar.NextDate` | lib/liturgical-calendar.ts:43-52 | the calendar day after a valid day is valid |
| `CivilCalendar.YearLength` | lib/liturgical-calendar.ts:43-52 | a year numbers 366 days exactly when it is a leap year, 365 otherwise |
| `CivilCalendar.DaysAreConsecutive` | lib/liturgical-calendar.ts:43-52 | the next calendar day is the next day number, so `setDate` offsets are additions |
| `CivilCalendar.FullYear` | lib/liturgical-calendar.ts:23 | the year `new Date(year, month, day)` builds: the years 0..99 become 1900..1999, every other year is kept, and a non-negative year never yields a year below 100 |
| `CivilCalendar.Weekday` | lib/liturgical-calendar.ts:95 | `getDay()` is in 0..6 |
| `LiturgicalCalendar.JsRem` | lib/liturgical-calendar.ts:8-21 | JavaScript's truncating `%`: strictly between -n and n, and the Euclidean remainder on non-negative operands |
| `LiturgicalCalendar.ComputusH` | lib/liturgical-calendar.ts:8-15 | the Paschal-moon term `h` lies in -29..29 for every year and in 0..29 from year 0 on |
| `LiturgicalCalendar.ComputusSum` | lib/liturgical-calendar.ts:8-21 | `h + l - 7m + 114` lies in 72..163 for every year and in 114..148 from year 0 on |
| `LiturgicalCalendar.CalculateEaster` | lib/liturgical-calendar.ts:7-24 | Easter is in month 2..5 of the year `new Date` makes of the given year (1900..1999 for 0..99) for every year; from year 0 on it is a valid date between March 22 and April 25 |
| `LiturgicalCalendar.IsSunday` | lib/liturgical-calendar.ts:115-117 | a day is a Sunday exactly when it lies a whole number of weeks after January 7 of year 1, the first Sunday of the era |
| `LiturgicalCalendar.LeapDaysThrough` | lib/liturgical-calendar.ts:20-23 | the day count of the calendar agrees with the 4/100/400 leap-day count the computus uses |
| `LiturgicalCalendar.EasterFromMarch22` | lib/liturgical-calendar.ts:20-23 | from year 0 on, Easter's day number is March 22 of the constructed year plus the computus sum minus 114 |
| `LiturgicalCalendar.EasterDayNumber` | lib/liturgical-calendar.ts:20-23 | from year 100 on, Easter's day number is the leap-day count of the year plus March 22's offset plus the computus sum minus 114 |
| `LiturgicalCalendar.ComputusSumFromYear` | lib/liturgical-calendar.ts:8-21 | from year 0 on, the truncating remainders of the computus are Euclidean ones |
| `LiturgicalCalendar.ComputusCongruence` | lib/liturgical-calendar.ts:8-21 | from year 0 on, the day number the computus sum designates is congruent to a Sunday |
| `LiturgicalCalendar.ComputusWeekday` | lib/liturgical-calendar.ts:8-21 | the weekday identity behind the computus: the day number of March 22 plus the sum is congruent to a Sunday |
| `LiturgicalCalendar.EasterIsSunday` | lib/liturgical-calendar.ts:7-24 | from year 100 on, Easter is a Sunday |
| `LiturgicalCalendar.PreviousSunday` | lib/liturgical-calendar.ts:93-99 | the result is a Sunday strictly before the date, between 7(w-1)+1 and 7w days earlier |
| `LiturgicalCalendar.NextSunday` | lib/liturgical-calendar.ts:104-110 | the result is a Sunday 1..7 days after the date |
| `LiturgicalCalendar.GetLiturgicalDates` | lib/liturgical-calendar.ts:155-218 | Ash Wednesday < Palm Sunday < Holy Thursday < Good Friday < Holy Saturday < Easter < Ascension < Pentecost; Easter is the computed Easter; Advent starts on a Sunday between November 27 and December 3 and the Baptism of the Lord is a Sunday between January 7 and 13, both of the year `new Date` makes of the given year; Christmas is December 25, Epiphany January 6, All Saints November 1 and All Souls November 2 of that year |
| `LiturgicalCalendar.MovableFeastOffsets` | lib/liturgical-calendar.ts:163-184 | the movable feasts lie at -46, -7, -3, -2, -1, +39 and +49 days from Easter |
| `LiturgicalCalendar.EasterCycleWindow` | lib/liturgical-calendar.ts:163-184 | from year 0 on, Ash Wednesday is on or after February 4 and Pentecost on or before June 13 of the constructed year |
| `LiturgicalCalendar.DatesInCalendarOrder` | lib/liturgical-calendar.ts:155-218 | from year 0 on, Epiphany < Baptism < Ash Wednesday and Pentecost < All Saints < All Souls < Advent < Christmas |
| `LiturgicalCalendar.MovableFeastWeekdays` | lib/liturgical-calendar.ts:163-184 | from year 100 on, Easter, Palm Sunday and Pentecost are Sundays, Ash Wednesday a Wednesday, Holy and Ascension Thursday Thursdays, Good Friday a Friday, Holy Saturday a Saturday |
| `LiturgicalCalendar.WeekdaysAroundSunday` | lib/liturgical-calendar.ts:163-184 | the weekdays at the feasts' offsets from any Sunday |
| `LiturgicalCalendar.WeekdayAfter` | lib/liturgical-calendar.ts:95-97 | moving k days moves `getDay()` by k modulo 7 |
| `LiturgicalCalendar.GetLiturgicalSeason` | lib/liturgical-calendar.ts:29-72 | the season is never Christmas, because that interval is empty |
| `LiturgicalCalendar.SeasonIntervals` | lib/liturgical-calendar.ts:55-71 | for every date from year 0 on, each season holds exactly on its interval: Advent on [adventStart, Christmas), Lent on [Ash Wednesday, Palm Sunday), Holy Week on [Palm Sunday, Easter), Easter on [Easter, Pentecost], Ordinary Time outside all of them |
| `LiturgicalCalendar.TwoDigitYearIsOrdinaryTime` | lib/liturgical-calendar.ts:29-72 | every date of the years 0..99 is Ordinary Time, because the dates it is compared with are built in 1900..1999 |
| `LiturgicalCalendar.LateDecemberIsOrdinaryTime` | lib/liturgical-calendar.ts:34-40 | from year 0 on, December 25-31 are Ordinary Time |
| `LiturgicalCalendar.JanuaryIsOrdinaryTime` | lib/liturgical-calendar.ts:37-40 | from year 0 on, every day of January is Ordinary Time |
| `LiturgicalCalendar.GetSeasonColor` | lib/liturgical-calendar.ts:77-88 | purple exactly for Advent and Lent, white exactly for Christmas and Easter, red exactly for Holy Week, green exactly for Ordinary Time |
| `LiturgicalCalendar.GetWeekOfSeason` | lib/liturgical-calendar.ts:122-150 | 1..4 in Advent, 1..6 in Lent, 1..7 in Easter, 0 for every other season |
| `LiturgicalCalendar.WeekHoldsDate` | lib/liturgical-calendar.ts:125-147 | on or after the season's start, week w covers days 7(w-1)..7w-1 from the start, and the capped last week covers the rest |
| `Text.DigitChar` | lib/mass-codes.ts:135-136 | the digit written for n reads back as n |
| `Text.NatToString` | lib/mass-codes.ts:135-136 | `toString()` of a natural number is a non-empty digit string that reads back as the number, one character long exactly below 10 |
| `Text.PadStart2` | lib/mass-codes.ts:135-136 | `padStart(2, '0')` is at least two characters long and ends with its argument |
| `Text.PadsToTwoDigits` | lib/mass-codes.ts:135-136 | a number below 100, padded, is exactly its two digits |
| `Text.TwoDigitsRoundTrip` | lib/mass-codes.ts:95-96 | two digits written for n parse back as n |
| `Text.TwoDigitsOfParse` | lib/mass-codes.ts:95-96 | any two digits are the padded form of the number they parse to |
| `Text.StripTrailingDigits` | lib/mass-navigation.ts:53 | `replace(/\d+$/, '')` gives a prefix of the code whose removed tail is all digits and that does not itself end in a digit |
| `Text.LexLeReflexive` | lib/mass-navigation.ts:150-154 | the string order is reflexive |
| `Text.LexLeTotal` | lib/mass-navigation.ts:150-154 | the string order is total |
| `Text.LexLeAntisymmetric` | lib/mass-navigation.ts:150-154 | the string order is antisymmetric |
| `Text.LexLeTransitive` | lib/mass-navigation.ts:150-154 | the string order is transitive |
| `MassCodes.GetMassCodeType` | lib/mass-codes.ts:72-85 | Saint exactly for four digits then upper-case letters; Season exactly for one or two upper-case letters then one or more digits; Common otherwise |
| `MassCodes.ParseSaintCode` | lib/mass-codes.ts:90-99 | succeeds exactly on codes of the saint type; month and day are below 100; a variant is a non-empty run of upper-case letters |
| `MassCodes.SeasonOfTag` | lib/mass-codes.ts:112-122 | a known tag is one or two upper-case letters |
| `MassCodes.TagOfSeason` | lib/mass-codes.ts:148-157 | the constructor's tag of a season is read back as that season |
| `MassCodes.TagsAreUnique` | lib/mass-codes.ts:112-122 | every known tag is the tag of the season it names |
| `MassCodes.ParseSeasonCode` | lib/mass-codes.ts:104-129 | a parsed code is of the season type, with week below 100, weekday below 10, and a tag that names the parsed season |
| `MassCodes.CreateSaintCode` | lib/mass-codes.ts:134-138 | for month and day in 0..99, the code is the two digits of the month, the two digits of the day, then the variant |
| `MassCodes.CreateSeasonCode` | lib/mass-codes.ts:143-162 | for a week in 0..99 and a weekday in 0..9, the code is the season's tag, the two digits of the week, then the weekday's digit |
| `MassCodes.SaintCodeRoundTrip` | lib/mass-codes.ts:90-99 | parsing a created saint code gives back month, day and variant, for month and day in 0..99 |
| `MassCodes.SaintCodeTextRoundTrip` | lib/mass-codes.ts:134-138 | creating a code from a parsed saint code gives back the code |
| `MassCodes.SeasonCodeRoundTrip` | lib/mass-codes.ts:143-162 | parsing a created season code gives back season, week and weekday, for week in 0..99 and weekday in 0..9 |
| `MassCodes.SeasonCodeTextRoundTrip` | lib/mass-codes.ts:104-129 | creating a code from a parsed season code gives back the code |
| `MassCodes.NonLeapMonthLength` | lib/mass-codes.ts:175 | the table has an entry exactly for months 1..12, and each is the calendar's length of that month in a common year |
| `MassCodes.DaysBeforeMonthAgreesWithCalendar` | lib/mass-codes.ts:175 | the month lengths summed give the calendar's cumulative month offsets of a common year |
| `MassCodes.MonthDayIsCommonYearDate` | lib/mass-codes.ts:174-188 | the month-days of the table are exactly the valid dates of a common year, numbered as the calendar numbers that year's days |
| `MassCodes.GetNextSaintCode` | lib/mass-codes.ts:168-189 | no next code exactly for an unparseable code and for December 31 |
| `MassCodes.GetPreviousSaintCode` | lib/mass-codes.ts:195-216 | no previous code exactly for an unparseable code and for January 1; throws exactly on day 1 of month 0 or of a month from 14 on |
| `MassCodes.NextMonthDayIsNextDay` | lib/mass-codes.ts:182-188 | the next month-day of a non-leap year is a valid month-day one day later in the year |
| `MassCodes.NextSaintCodeValue` | lib/mass-codes.ts:168-189 | on a non-leap month-day other than December 31, the next code is the bare code of the next month-day |
| `MassCodes.NextSaintCodeIsNextDay` | lib/mass-codes.ts:168-189 | the next code parses to a variant-free valid month-day one day later in the year |
| `MassCodes.PreviousMonthDayIsPreviousDay` | lib/mass-codes.ts:209-215 | the previous month-day of a non-leap year is a valid month-day one day earlier in the year |
| `MassCodes.PreviousSaintCodeValue` | lib/mass-codes.ts:195-216 | on a non-leap month-day other than January 1, the previous code is the bare code of the previous month-day |
| `MassCodes.PreviousSaintCodeIsPreviousDay` | lib/mass-codes.ts:195-216 | the previous code parses to a variant-free valid month-day one day earlier in the year |
| `MassCodes.MonthDayStepsAreInverse` | lib/mass-codes.ts:174-215 | the forward and backward month-day steps undo each other |
| `MassCodes.SaintStepsAreInverse` | lib/mass-codes.ts:168-216 | on a non-leap month-day, previous after next and next after previous both give the code without its variant |
| `MassCodes.SaintNextThenPrevious` | lib/mass-codes.ts:168-216 | on a non-leap month-day other than December 31, previous after next gives the code without its variant |
| `MassCodes.SaintPreviousThenNext` | lib/mass-codes.ts:168-216 | on a non-leap month-day other than January 1, next after previous gives the code without its variant |
| `MassCodes.GetNextSeasonCode` | lib/mass-codes.ts:221-234 | there is a next code exactly when the code parses |
| `MassCodes.GetPreviousSeasonCode` | lib/mass-codes.ts:239-257 | there is no previous code exactly for an unparseable code and for Sunday of week 1 |
| `MassCodes.NextSeasonCodeIsNextDay` | lib/mass-codes.ts:221-234 | the next code parses to the same season, a weekday in 0..6, and position 7·week+day one greater |
| `MassCodes.PreviousSeasonCodeIsPreviousDay` | lib/mass-codes.ts:239-257 | the previous code parses to the same season, a weekday in 0..6, and position 7·week+day one smaller |
| `MassCodes.SeasonNextThenPrevious` | lib/mass-codes.ts:221-257 | previous after next gives back the code, wherever the step does not land on Sunday of week 1 or past week 99 |
| `MassCodes.SeasonStepBack` | lib/mass-codes.ts:239-257 | away from Sunday of week 1, the previous code of a created season code is the created code of the previous day |
| `MassCodes.SeasonPreviousThenNext` | lib/mass-codes.ts:221-257 | next after previous gives back the code, wherever the previous code exists |
| `MassNavigation.PrecedesTotal` | lib/mass-navigation.ts:150-154 | every ordering of the queries compares any two rows |
| `MassNavigation.PrecedesTransitive` | lib/mass-navigation.ts:181-185 | every ordering of the queries is transitive |
| `MassNavigation.PrecedesReflexive` | lib/mass-navigation.ts:64 | every ordering of the queries is reflexive |
| `MassNavigation.FindFirst` | lib/mass-navigation.ts:135-156 | a result is a row of the store that matches the filter; there is none exactly when no row matches |
| `MassNavigation.FindFirstIsLeast` | lib/mass-navigation.ts:143-156 | the result comes first in the requested order among all matching rows |
| `MassNavigation.UnorderedIsFirstInRowOrder` | lib/mass-navigation.ts:135-138 | without an ordering, the result is the first matching row in row order |
| `MassNavigation.FindNextAvailableSaint` | lib/mass-navigation.ts:133-159 | a result is a saint row of the store that has the code or qualifies for the fallback search; a stored saint row with the code is always preferred; there is none exactly when no saint row has the code and none qualifies for the fallback search |
| `MassNavigation.FindPreviousAvailableSaint` | lib/mass-navigation.ts:164-190 | a result is a saint row of the store that has the code or qualifies for the fallback search; a stored saint row with the code is always preferred; there is none exactly when no saint row has the code and none qualifies for the fallback search |
| `MassNavigation.GetNextMass` | lib/mass-navigation.ts:21-72 | no result when the code family and the category disagree; a result is a row of the store in the given category; no result after December 31 (no wrap); a saint result has the next day's code or qualifies for the search from it; a season result exists exactly when a season row with the next season code is stored, and has that code; a common result starts with the code's prefix and is strictly greater |
| `MassNavigation.GetPreviousMass` | lib/mass-navigation.ts:77-128 | throws exactly when the saint step throws; no result when family and category disagree; a result is a row of the store in the given category; no result before January 1 (no wrap); a saint result has the previous day's code or qualifies for the search up to it; a season result exists exactly when a season row with the previous season code is stored, and has that code; a common result starts with the prefix and is strictly smaller |
| `MassNavigation.NextCommonIsNearest` | lib/mass-navigation.ts:51-69 | the next common is the least qualifying code, so none lies strictly between; none exactly when nothing qualifies |
| `MassNavigation.PreviousCommonIsNearest` | lib/mass-navigation.ts:107-125 | the previous common is the greatest qualifying code; none exactly when nothing qualifies |
| `MassNavigation.NextSaintSkipsEmptyDays` | lib/mass-navigation.ts:142-158 | when the next day's code is not stored, the result is the earliest by (month, day, code) among saint rows with a date and a code at or after it |
| `MassNavigation.PreviousSaintSkipsEmptyDays` | lib/mass-navigation.ts:173-189 | when the previous day's code is not stored, the result is the latest by (month, day, code) among saint rows with a date and a code at or before it |
| `MassNavigation.NextSaintPrefersExactDay` | lib/mass-navigation.ts:134-140 | when the next day's code is stored as a saint, navigation returns a row with exactly that code |
| `MassNavigation.PreviousSaintPrefersExactDay` | lib/mass-navigation.ts:165-171 | when the previous day's code is stored as a saint, navigation returns a row with exactly that code, ahead of the fallback search |
| `TodaySeason.GetCurrentLiturgicalSeason` | app/api/masses/today/route.ts:126-154 | never Holy Week; Ordinary Time only in January, February and June to November |
| `TodaySeason.ApproximateSeasonRanges` | app/api/masses/today/route.ts:126-154 | the exact month-and-day ranges of each season, Ordinary Time being the complement of the others |
| `TodaySeason.ApproximationIgnoresYear` | app/api/masses/today/route.ts:127-128 | the result depends on month and day only |
| `TodaySeason.ApproximationAgreesWithEngine` | app/api/masses/today/route.ts:131-153 | from year 100 on it agrees with the engine on December 3-24 (Advent), April 26 - May 10 (Easter), and January 14 - February 3 and June 16 - November 26 (Ordinary Time) |
| `TodaySeason.AgreeInAdvent` | app/api/masses/today/route.ts:131-134 | from year 100 on, December 3-24 are Advent for both |
| `TodaySeason.AgreeInEasterSeason` | app/api/masses/today/route.ts:146-149 | from year 100 on, April 26 - May 10 are Easter for both |
| `TodaySeason.AgreeInOrdinaryTime` | app/api/masses/today/route.ts:151-153 | from year 100 on, January 14 - February 3 and June 16 - November 26 are Ordinary Time for both |
| `TodaySeason.ApproximateChristmasIsEngineOrdinaryTime` | app/api/masses/today/route.ts:136-139 | its Christmas days are Ordinary Time for the engine |
| `TodaySeason.EngineHolyWeekIsApproximateLentOrEaster` | app/api/masses/today/route.ts:142-150 | the engine's Holy Week is Lent or Easter for the approximation |
| `MassImport.RankAndColor` | scripts/parse-html-masses.ts:252-267 | Solemnity exactly up to 3, Feast exactly for 4..6, Optional Memorial exactly above 10, never Ferial; white exactly up to 6, green otherwise |
| `MassImport.RankFollowsPrecedence` | scripts/parse-html-masses.ts:257-267 | a larger precedence number never gives a higher rank |
| `MassImport.InferSeason` | scripts/parse-html-masses.ts:269-279 | a season exactly for seasonal masses; for every seasonal id a first letter A, N, Q, S or P gives Advent, Christmas, Lent, Holy Week or Easter, and Ordinary Time comes exactly when the id starts with none of them |
| `MassImport.MapCategory` | scripts/parse-html-masses.ts:281-283 | saints exactly for SANTOS, seasons exactly for TIEMPOS, commons otherwise |
| `MassImport.ExtractMonthDay` | scripts/parse-html-masses.ts:285-292 | month and day exist exactly when the id begins with four digits, whatever follows them; they are the numbers the first and the second pair of digits spell |
| `MassImport.Derive` | scripts/parse-html-masses.ts:252-292 | the stored code is the id; rank and colour come from the precedence, the category from the source category, the season from the category and id, and month and day from the id's leading digits, each by the derivation whose contract states it; a season is set exactly for the seasons category |
| `MassImport.ExtractAgreesWithSaintParser` | scripts/parse-html-masses.ts:288-292 | on a saint code, month and day are the ones the code parser reads |
| `MassImport.InferAgreesWithSeasonParser` | scripts/parse-html-masses.ts:270-279 | on a season code, the inferred season is the one its tag names |
| `MassImport.ImportedSaintIsNavigable` | scripts/parse-html-masses.ts:285-292 | a saint imported under a saint code has the month and day the saint searches of navigation require |
| `WorkedCases.Easter2023` | lib/liturgical-calendar.ts:7-24 | Easter 2023 is April 9 |
| `WorkedCases.Easter2024` | lib/liturgical-calendar.ts:7-24 | Easter 2024 is March 31 |
| `WorkedCases.Easter2025` | lib/liturgical-calendar.ts:7-24 | Easter 2025 is April 20 |
| `WorkedCases.EasterOfYear50` | lib/liturgical-calendar.ts:7-24 | for the year 50 the computed Easter is March 27, 1950, a Monday |
| `WorkedCases.CodeFamilies` | lib/mass-codes.ts:72-85 | "0102" and "0315A" are saint codes, "A010" and "TO010" season codes, "bmv1" and "012" common codes |
| `WorkedCases.DocumentedCodes` | lib/mass-codes.ts:22-46 | "0120Z" is January 20 with variant Z; "P070" is Sunday of Easter week 7 |
| `WorkedCases.ImportedVariantDate` | scripts/parse-html-masses.ts:285-292 | the importer reads January 20 from "0120Z" |
| `WorkedCases.FebruaryToMarch` | lib/mass-codes.ts:168-189 | the code after "0228" is "0301" |
| `WorkedCases.MarchToFebruary` | lib/mass-codes.ts:195-216 | the code before "0301" is "0228" |
| `WorkedCases.EndOfTheYear` | lib/mass-codes.ts:177-180 | "1231" has no next code |
| `WorkedCases.StartOfTheYear` | lib/mass-codes.ts:204-207 | "0101" has no previous code |
| `WorkedCases.MonthZeroThrows` | lib/mass-codes.ts:209-212 | the previous code of "0001" throws |
| `WorkedCases.AdventWeekBoundary` | lib/mass-codes.ts:227-233 | "A016" is followed by "A020", and "A020" is preceded by "A016" |
| `WorkedCases.AdventStart` | lib/mass-codes.ts:245-248 | "A010" has no previous code |
| `WorkedCases.January1ToJanuary2` | lib/mass-codes.ts:168-189 | the code after "0101" is "0102" |
| `WorkedCases.JanuaryStoreFromJanuary2` | lib/mass-navigation.ts:133-159 | with saint masses stored for "0101" and "0105" only, the search from "0102" finds "0105" |
| `WorkedCases.NextSaintSkipsToStoredDay` | lib/mass-navigation.ts:28-34 | with saint masses stored for "0101" and "0105" only, the next mass after "0101" is "0105" |
| `WorkedCases.BmvOrder` | lib/mass-navigation.ts:59-64 | codes bmv plus one character compare by that character |
| `WorkedCases.CommonStoreOrder` | lib/mass-navigation.ts:51-64 | the order of bmv1, bmv2, bmv3 and bmv5, and bmv3's prefix bmv |
| `WorkedCases.CommonStoreMatches` | lib/mass-navigation.ts:56-63 | bmv5 alone lies above bmv3, bmv1 and bmv2 below it |
| `WorkedCases.CommonsAfterBmv3` | lib/mass-navigation.ts:56-66 | the ascending search above bmv3 finds bmv5 |
| `WorkedCases.NextCommon` | lib/mass-navigation.ts:51-69 | among bmv1, bmv2, bmv3 and bmv5, bmv3 is followed by bmv5 |
| `WorkedCases.CommonsBeforeBmv3Tail` | lib/mass-navigation.ts:112-122 | past bmv1, the descending search below bmv3 finds bmv2 |
| `WorkedCases.CommonsBeforeBmv3` | lib/mass-navigation.ts:112-122 | the descending search below bmv3 finds bmv2 |
| `WorkedCases.PreviousCommon` | lib/mass-navigation.ts:107-125 | among bmv1, bmv2, bmv3 and bmv5, bmv3 is preceded by bmv2 |
| `WorkedCases.NextSaintReachesVariantOnlyDay` | lib/mass-navigation.ts:143-156 | with masses "0227" and "0228A", the next mass after "0227" is "0228A" |
| `WorkedCases.PreviousSaintSkipsVariantOnlyDay` | lib/mass-navigation.ts:174-187 | with masses "0227" and "0228A", the previous mass before "0301" is "0227", skipping February 28 |
| `WorkedCases.NoWrapAtNewYear` | lib/mass-navigation.ts:28-30 | "1231" has no next saint mass even with January 1 stored |
| `WorkedCases.CategoryMismatch` | lib/mass-navigation.ts:25-71 | a saint code navigated in the seasons category has no next mass |
| `WorkedCases.ChristmasDay2024` | app/api/masses/today/route.ts:136-139 | Christmas Day 2024 is Christmas for the approximation and Ordinary Time for the engine |

## Left out

- Time of day, time zones, daylight saving time and milliseconds of JavaScript `Date` are not modelled. Every date is a whole day. In `getWeekOfSeason` the `Math.ceil` of a millisecond difference divided by the length of a day is therefore the difference in days.
- `formatLiturgicalDate` is locale formatting through `Intl` and is not modelled.
- `LiturgicalCalendar.CalculateEaster`: the March 22 - April 25 window and validity of the date are proved from year 0 on only. For years before 0 the contract states only that the month is 2..5. The source documents the algorithm for 1583-4099.
- `LiturgicalCalendar.SeasonIntervals`, `LiturgicalCalendar.DatesInCalendarOrder`, `LiturgicalCalendar.EasterCycleWindow`, `LiturgicalCalendar.LateDecemberIsOrdinaryTime` and `LiturgicalCalendar.JanuaryIsOrdinaryTime` hold from year 0 on only. They rest on the Easter window above.
- `LiturgicalCalendar.EasterIsSunday`, `LiturgicalCalendar.MovableFeastWeekdays` and `TodaySeason.ApproximationAgreesWithEngine` hold from year 100 on only. For the years 0..99 `new Date` builds every date of the engine in 1900..1999: the computed Easter need not be a Sunday (`WorkedCases.EasterOfYear50`), and every date of those years is Ordinary Time (`LiturgicalCalendar.TwoDigitYearIsOrdinaryTime`).
- Years are unbounded integers. A JavaScript `Date` holds only about 275,760 years on either side of 1970, and beyond that range the source computes with an invalid date, which is not modelled.
- `LiturgicalCalendar.GetWeekOfSeason`: its contract states the bounds. The week that holds the date is stated by `WeekHoldsDate` for dates on or after the season's start, and is not stated for dates before it, where the source takes an absolute difference.
- `createSaintCode` and `createSeasonCode` are modelled on integers. Fractional and non-finite numbers, whose `toString()` has a decimal point or letters, are not modelled.
- The importer's precedence is an integer. A `NaN` precedence from a failed `parseInt`, which fails every comparison and gives Optional Memorial, is not modelled.
- Prisma is replaced by an immutable sequence of rows in row order. Asynchrony, connection errors and the `select` projection are not modelled; navigation returns the whole row.
- The database's string collation is assumed to be binary (code unit by code unit) for `gt`, `lt`, `gte`, `lte` and `orderBy` on codes. `startsWith` is assumed to be case-sensitive.
- The order in which the database returns rows that a query does not order, or that tie on every ordering key, is not specified by the source. The model takes row order.
- The `GET` handlers of the API routes are HTTP and database plumbing and are not modelled; only `getCurrentLiturgicalSeason` is.
- The importer's HTML extraction, its file reads, its database writes and its counters are not modelled; only the derivations of one mass are.
- The React pages and components, the view context and its local storage, the other scripts (migration, scraping, integrity checks) and the build configuration are not modelled.
- The saint stepper keeps the source's fixed 28-day February; February 29 is not a day of its table.
