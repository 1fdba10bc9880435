/**
 * Concrete instances of the model: Easter dates of known years, codes of each
 * family, the steppers at the edges of the year and of a season, and
 * navigation over small stores.
 */
module WorkedCases {
  import opened Wrappers
  import opened LiturgicalTypes
  import opened CivilCalendar
  import opened LiturgicalCalendar
  import opened MassCodes
  import opened MassNavigation
  import opened TodaySeason
  import MassImport

  /** Easter fell on April 9, 2023. */
  lemma Easter2023()
    ensures CalculateEaster(2023) == Date(2023, 4, 9)
  {
    assert JsRem(2023, 19) == 9 && JsRem(2023, 100) == 23;
    assert ComputusH(2023) == 15;
    assert JsRem(32 + 10 - 15 - 3, 7) == 3;
    assert ComputusSum(2023) == 132;
    assert JsRem(132, 31) == 8;
  }

  /** Easter fell on March 31, 2024. */
  lemma Easter2024()
    ensures CalculateEaster(2024) == Date(2024, 3, 31)
  {
    assert JsRem(2024, 19) == 10 && JsRem(2024, 100) == 24;
    assert ComputusH(2024) == 4;
    assert JsRem(32 + 12 - 4, 7) == 5;
    assert ComputusSum(2024) == 123;
    assert JsRem(123, 31) == 30;
  }

  /** Easter fell on April 20, 2025. */
  lemma Easter2025()
    ensures CalculateEaster(2025) == Date(2025, 4, 20)
  {
    assert JsRem(2025, 19) == 11 && JsRem(2025, 100) == 25;
    assert ComputusH(2025) == 23;
    assert JsRem(32 + 12 - 23 - 1, 7) == 6;
    assert ComputusSum(2025) == 143;
    assert JsRem(143, 31) == 19;
  }

  /**
   * For the year 50, `new Date` places the computed March 27 in 1950, where
   * it is a Monday.
   */
  lemma EasterOfYear50()
    ensures CalculateEaster(50) == Date(1950, 3, 27)
    ensures !IsSunday(CalculateEaster(50))
  {
    assert JsRem(50, 19) == 12 && JsRem(50, 100) == 50;
    assert ComputusH(50) == 3;
    assert JsRem(32 + 24 - 3 - 2, 7) == 2;
    assert ComputusSum(50) == 119;
    assert JsRem(119, 31) == 26;
    assert DaysBeforeYear(1950) == 711857;
    assert DayOf(1950, 3, 27) == 711942;
  }

  /** One code of each family. */
  lemma CodeFamilies()
    ensures GetMassCodeType("0102") == Saint
    ensures GetMassCodeType("0315A") == Saint
    ensures GetMassCodeType("A010") == Season
    ensures GetMassCodeType("TO010") == Season
    ensures GetMassCodeType("bmv1") == Common
    ensures GetMassCodeType("012") == Common
  {
    assert "0315A"[..4] == "0315" && "0315A"[4..] == "A";
    assert "TO010"[2..] == "010";
  }

  /** A bare saint code spelled out digit by digit is the code `createSaintCode` writes and `parseSaintCode` reads. */
  lemma BareSaintCode(month: int, day: int, code: string)
    requires 0 <= month < 100 && 0 <= day < 100
    requires code == Text.TwoDigits(month) + Text.TwoDigits(day)
    ensures CreateSaintCode(month, day, None) == code
    ensures ParseSaintCode(code) == Some(SaintCode(month, day, None))
  {
    Text.PadsToTwoDigits(month);
    Text.PadsToTwoDigits(day);
    SaintCodeRoundTrip(month, day, None);
  }

  /** The end of February steps to March 1. */
  lemma FebruaryToMarch()
    ensures GetNextSaintCode("0228") == Some("0301")
  {
    BareSaintCode(2, 28, "0228");
    assert NextMonthDay(2, 28) == (3, 1);
    NextSaintCodeValue("0228");
    BareSaintCode(3, 1, "0301");
  }

  /** March 1 steps back to the end of February. */
  lemma MarchToFebruary()
    ensures GetMassCodeType("0301") == Saint && GetPreviousSaintCode("0301") == Returns(Some("0228"))
  {
    BareSaintCode(3, 1, "0301");
    assert PreviousMonthDay(3, 1) == (2, 28);
    PreviousSaintCodeValue("0301");
    BareSaintCode(2, 28, "0228");
  }

  /** December 31 has no next code. */
  lemma EndOfTheYear()
    ensures GetNextSaintCode("1231") == None
  {
    BareSaintCode(12, 31, "1231");
  }

  /** January 1 has no previous code. */
  lemma StartOfTheYear()
    ensures GetPreviousSaintCode("0101") == Returns(None)
  {
    BareSaintCode(1, 1, "0101");
  }

  /** Day 1 of month 0 reads past the month table, and the previous-code step throws. */
  lemma MonthZeroThrows()
    ensures GetPreviousSaintCode("0001") == Throws
  {
    BareSaintCode(0, 1, "0001");
  }

  /** A season code spelled out character by character is the code `createSeasonCode` writes and `parseSeasonCode` reads. */
  lemma BareSeasonCode(season: Season, week: int, day: int, code: string)
    requires 0 <= week < 100 && 0 <= day < 10
    requires code == TagOfSeason(season) + Text.TwoDigits(week) + [Text.DigitChar(day)]
    ensures CreateSeasonCode(season, week, day) == code
    ensures ParseSeasonCode(code) == Some(SeasonCode(season, week, day))
  {
    Text.PadsToTwoDigits(week);
    Text.OneDigit(day);
    SeasonCodeRoundTrip(season, week, day);
  }

  /** The documented codes: January 20, second celebration, and Pentecost Sunday. */
  lemma DocumentedCodes()
    ensures ParseSaintCode("0120Z") == Some(SaintCode(1, 20, Some("Z")))
    ensures ParseSeasonCode("P070") == Some(SeasonCode(Easter, 7, 0))
  {
    SaintCodeRoundTrip(1, 20, Some("Z"));
    assert CreateSaintCode(1, 20, Some("Z")) == "0120Z" by {
      Text.PadsToTwoDigits(1);
      Text.PadsToTwoDigits(20);
    }
    BareSeasonCode(Easter, 7, 0, "P070");
  }

  /** The importer reads January 20 from the id of its second celebration. */
  lemma ImportedVariantDate()
    ensures MassImport.ExtractMonthDay("0120Z") == (Some(1), Some(20))
  {
    DocumentedCodes();
    MassImport.ExtractAgreesWithSaintParser("0120Z");
  }

  /** Saturday of Advent week 1 is followed by Sunday of week 2, and the other way round. */
  lemma AdventWeekBoundary()
    ensures GetNextSeasonCode("A016") == Some("A020")
    ensures GetPreviousSeasonCode("A020") == Some("A016")
  {
    BareSeasonCode(Advent, 1, 6, "A016");
    BareSeasonCode(Advent, 2, 0, "A020");
  }

  /** Sunday of Advent week 1 has no previous day. */
  lemma AdventStart()
    ensures GetPreviousSeasonCode("A010") == None
  {
    BareSeasonCode(Advent, 1, 0, "A010");
  }

  function SaintRow(code: string, month: int, day: int): MassRecord {
    MassRecord("row" + code, code, Saints, Some(month), Some(day))
  }

  function CommonRow(code: string): MassRecord {
    MassRecord("row" + code, code, Commons, None, None)
  }

  /** January 1 steps to January 2. */
  lemma January1ToJanuary2()
    ensures GetMassCodeType("0101") == Saint && GetNextSaintCode("0101") == Some("0102")
  {
    BareSaintCode(1, 1, "0101");
    assert NextMonthDay(1, 1) == (1, 2);
    NextSaintCodeValue("0101");
    BareSaintCode(1, 2, "0102");
  }

  /** Saint masses for January 1 and January 5 only. */
  function JanuaryStore(): Store {
    [SaintRow("0101", 1, 1), SaintRow("0105", 1, 5)]
  }

  /** In the January store, the forward search from January 2 finds January 5. */
  lemma JanuaryStoreFromJanuary2()
    ensures FindNextAvailableSaint(JanuaryStore(), "0102") == Some(SaintRow("0105", 1, 5))
  {
    var store := JanuaryStore();
    assert !Text.LexLe("0102", "0101") && Text.LexLe("0102", "0105");
    assert store[1..][1..] == [];
    assert FindFirst(store[1..], CodeIs("0102", Saints), Unordered) == None;
    assert FindFirst(store, CodeIs("0102", Saints), Unordered) == None;
    assert !Matches(SaintsFrom("0102"), store[0]) && Matches(SaintsFrom("0102"), store[1]);
    assert FindFirst(store[1..], SaintsFrom("0102"), DateAsc) == Some(store[1]);
  }

  /** With no mass stored for January 2, the next saint mass after January 1 is the one of January 5. */
  lemma NextSaintSkipsToStoredDay()
    ensures GetNextMass(JanuaryStore(), "0101", Saints) == Some(SaintRow("0105", 1, 5))
  {
    January1ToJanuary2();
    JanuaryStoreFromJanuary2();
  }

  /** Four commons of the prefix bmv, with bmv4 missing. */
  function CommonStore(): Store {
    [CommonRow("bmv1"), CommonRow("bmv2"), CommonRow("bmv3"), CommonRow("bmv5")]
  }

  /** Codes bmv followed by one character compare by that character. */
  lemma BmvOrder(x: char, y: char)
    ensures Text.LexLe("bmv" + [x], "bmv" + [y]) <==> x <= y
  {
    var a, b := "bmv" + [x], "bmv" + [y];
    assert a[0] == b[0] && a[1..][0] == b[1..][0] && a[1..][1..][0] == b[1..][1..][0];
    assert a[1..][1..][1..] == [x] && b[1..][1..][1..] == [y];
    assert Text.LexLe([x], [y]) <==> x <= y by {
      assert [x][1..] == [];
    }
    assert Text.LexLe(a, b) == Text.LexLe(a[1..], b[1..]) == Text.LexLe(a[1..][1..], b[1..][1..])
        == Text.LexLe([x], [y]);
  }

  /** The order of the stored commons and of bmv3 among them. */
  lemma CommonStoreOrder()
    ensures Text.LexLt("bmv1", "bmv3") && Text.LexLt("bmv2", "bmv3") && Text.LexLt("bmv3", "bmv5")
    ensures Text.LexLe("bmv1", "bmv2") && !Text.LexLe("bmv2", "bmv1")
    ensures !Text.LexLe("bmv3", "bmv1") && !Text.LexLe("bmv3", "bmv2") && !Text.LexLe("bmv5", "bmv3")
    ensures Text.StripTrailingDigits("bmv3") == "bmv" && GetMassCodeType("bmv3") == Common
  {
    assert "bmv1" == "bmv" + ['1'] && "bmv2" == "bmv" + ['2'];
    assert "bmv3" == "bmv" + ['3'] && "bmv5" == "bmv" + ['5'];
    BmvOrder('1', '3');
    BmvOrder('2', '3');
    BmvOrder('3', '5');
    BmvOrder('1', '2');
    BmvOrder('2', '1');
    BmvOrder('3', '1');
    BmvOrder('3', '2');
    BmvOrder('5', '3');
    assert Text.StripTrailingDigits("bmv3") == Text.StripTrailingDigits("bmv");
  }

  /** Which stored commons lie above and below bmv3. */
  lemma CommonStoreMatches()
    ensures var store, after, before := CommonStore(), CommonsAfter("bmv", "bmv3"), CommonsBefore("bmv", "bmv3");
      && !Matches(after, store[0]) && !Matches(after, store[1]) && !Matches(after, store[2]) && Matches(after, store[3])
      && Matches(before, store[0]) && Matches(before, store[1]) && !Matches(before, store[2]) && !Matches(before, store[3])
  {
    CommonStoreOrder();
    assert "bmv1"[..3] == "bmv2"[..3] == "bmv3"[..3] == "bmv5"[..3] == "bmv";
  }

  /** The ascending search above bmv3 finds bmv5. */
  lemma CommonsAfterBmv3()
    ensures FindFirst(CommonStore(), CommonsAfter("bmv", "bmv3"), CodeAsc) == Some(CommonRow("bmv5"))
  {
    var store := CommonStore();
    var f := CommonsAfter("bmv", "bmv3");
    CommonStoreMatches();
    assert store[3..][1..] == [];
    assert FindFirst(store[3..], f, CodeAsc) == Some(store[3]);
    assert store[2..][1..] == store[3..];
    assert FindFirst(store[2..], f, CodeAsc) == Some(store[3]);
    assert store[1..][1..] == store[2..];
    assert FindFirst(store[1..], f, CodeAsc) == Some(store[3]);
  }

  /** Among the commons bmv1, bmv2, bmv3 and bmv5, bmv3 is followed by bmv5. */
  lemma NextCommon()
    ensures GetNextMass(CommonStore(), "bmv3", Commons) == Some(CommonRow("bmv5"))
  {
    CommonStoreOrder();
    CommonsAfterBmv3();
  }

  /** Above bmv2, no stored common lies below bmv3. */
  lemma CommonsBeforeBmv3Tail()
    ensures FindFirst(CommonStore()[1..], CommonsBefore("bmv", "bmv3"), CodeDesc) == Some(CommonRow("bmv2"))
  {
    var store := CommonStore();
    var f := CommonsBefore("bmv", "bmv3");
    CommonStoreMatches();
    assert store[3..][1..] == [];
    assert FindFirst(store[3..], f, CodeDesc) == None;
    assert store[2..][1..] == store[3..];
    assert FindFirst(store[2..], f, CodeDesc) == None;
    assert store[1..][1..] == store[2..];
  }

  /** The descending search below bmv3 finds bmv2. */
  lemma CommonsBeforeBmv3()
    ensures FindFirst(CommonStore(), CommonsBefore("bmv", "bmv3"), CodeDesc) == Some(CommonRow("bmv2"))
  {
    var store := CommonStore();
    CommonStoreMatches();
    CommonsBeforeBmv3Tail();
    CommonStoreOrder();
    assert !Precedes(CodeDesc, store[0], store[1]);
  }

  /** Among the commons bmv1, bmv2, bmv3 and bmv5, bmv3 is preceded by bmv2. */
  lemma PreviousCommon()
    ensures GetPreviousMass(CommonStore(), "bmv3", Commons) == Returns(Some(CommonRow("bmv2")))
  {
    CommonStoreOrder();
    CommonsBeforeBmv3();
  }

  /** February 27 steps to February 28. */
  lemma February27ToFebruary28()
    ensures GetMassCodeType("0227") == Saint && GetNextSaintCode("0227") == Some("0228")
  {
    BareSaintCode(2, 27, "0227");
    assert NextMonthDay(2, 27) == (2, 28);
    NextSaintCodeValue("0227");
    BareSaintCode(2, 28, "0228");
  }

  function VariantStore(): Store {
    [SaintRow("0227", 2, 27), SaintRow("0228A", 2, 28)]
  }

  /** In the variant store, the forward search from February 28 finds the variant row. */
  lemma VariantStoreFromFebruary28()
    ensures FindNextAvailableSaint(VariantStore(), "0228") == Some(SaintRow("0228A", 2, 28))
  {
    var store := VariantStore();
    assert !Text.LexLe("0228", "0227") && Text.LexLe("0228", "0228A");
    assert store[1..][1..] == [];
    assert FindFirst(store[1..], CodeIs("0228", Saints), Unordered) == None;
    assert FindFirst(store, CodeIs("0228", Saints), Unordered) == None;
    assert Matches(SaintsFrom("0228"), store[1]);
    assert FindFirst(store[1..], SaintsFrom("0228"), DateAsc) == Some(store[1]);
  }

  /** In the variant store, the backward search from February 28 finds February 27. */
  lemma VariantStoreUpToFebruary28()
    ensures FindPreviousAvailableSaint(VariantStore(), "0228") == Some(SaintRow("0227", 2, 27))
  {
    var store := VariantStore();
    assert Text.LexLe("0227", "0228") && !Text.LexLe("0228A", "0228");
    assert store[1..][1..] == [];
    assert FindFirst(store[1..], CodeIs("0228", Saints), Unordered) == None;
    assert FindFirst(store, CodeIs("0228", Saints), Unordered) == None;
    assert !Matches(SaintsUpTo("0228"), store[1]) && Matches(SaintsUpTo("0228"), store[0]);
    assert FindFirst(store[1..], SaintsUpTo("0228"), DateDesc) == None;
  }

  /** The forward search from February 28 reaches a day whose only mass is a variant. */
  lemma NextSaintReachesVariantOnlyDay()
    ensures GetNextMass(VariantStore(), "0227", Saints) == Some(SaintRow("0228A", 2, 28))
  {
    February27ToFebruary28();
    VariantStoreFromFebruary28();
  }

  /**
   * The backward search from February 28 compares codes with `<=`, which a
   * variant code of that day fails, so it skips that day.
   */
  lemma PreviousSaintSkipsVariantOnlyDay()
    ensures GetPreviousMass(VariantStore(), "0301", Saints) == Returns(Some(SaintRow("0227", 2, 27)))
  {
    MarchToFebruary();
    VariantStoreUpToFebruary28();
  }

  /** December 31 has no next saint mass, even with January 1 stored. */
  lemma NoWrapAtNewYear()
    ensures GetNextMass([SaintRow("0101", 1, 1)], "1231", Saints) == None
  {
    EndOfTheYear();
  }

  /** A saint code in the seasons category has no neighbour. */
  lemma CategoryMismatch()
    ensures GetNextMass([SaintRow("0102", 1, 2)], "0101", Seasons) == None
  {
  }

  /** Christmas Day 2024: the approximation says Christmas, the engine Ordinary Time. */
  lemma ChristmasDay2024()
    ensures GetCurrentLiturgicalSeason(Date(2024, 12, 25)) == Christmas
    ensures GetLiturgicalSeason(Date(2024, 12, 25)) == OrdinaryTime
  {
    LateDecemberIsOrdinaryTime(Date(2024, 12, 25));
  }
}
