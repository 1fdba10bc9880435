/**
 * The pure derivations the HTML importer performs before it writes a mass:
 * rank and colour from the precedence, the season of a seasonal mass from its
 * id, the stored category, and month and day from a leading `MMDD`.
 */
module MassImport {
  import opened Wrappers
  import opened Text
  import opened LiturgicalTypes
  import opened MassCodes
  import MassNavigation

  /** The categories of the source HTML files. */
  datatype SourceCategory = Santos | Tiempos | Comunes

  /** A parsed mass, as far as the derivations read it. */
  datatype ParsedMass = ParsedMass(id: string, category: SourceCategory, precedence: int)

  /** Lower precedence numbers are higher ranks. */
  function RankPosition(r: LiturgicalRank): nat {
    match r
    case Solemnity => 0
    case Feast => 1
    case Memorial => 2
    case OptionalMemorial => 3
    case Ferial => 4
  }

  /**
   * Rank and colour from the precedence: up to 3 a white solemnity, up to 6 a
   * white feast, up to 10 a memorial, beyond that an optional memorial; the
   * last two keep the default green.
   */
  function RankAndColor(precedence: int): (r: (LiturgicalRank, LiturgicalColor))
    ensures r.0 != Ferial
    ensures r.1 == White <==> precedence <= 6
    ensures r.1 != White ==> r.1 == Green
    ensures r.0 == Solemnity <==> precedence <= 3
    ensures r.0 == Feast <==> 4 <= precedence <= 6
    ensures r.0 == OptionalMemorial <==> precedence > 10
  {
    if precedence <= 3 then (Solemnity, White)
    else if precedence <= 6 then (Feast, White)
    else if precedence <= 10 then (Memorial, Green)
    else (OptionalMemorial, Green)
  }

  /** A larger precedence number never yields a higher rank. */
  lemma {:induction false} RankFollowsPrecedence(p: int, q: int)
    requires p <= q
    ensures RankPosition(RankAndColor(p).0) <= RankPosition(RankAndColor(q).0)
  {
    if q <= 3 {
      assert RankAndColor(p).0 == Solemnity;
    } else if q <= 6 {
      assert RankAndColor(q).0 == Feast;
    } else if q <= 10 {
      assert RankAndColor(q).0 == Memorial;
    }
  }

  /**
   * The season of a mass: only seasonal masses have one, read from the first
   * letter of the id (A, N, Q, S, P), Ordinary Time for any other id.
   */
  function InferSeason(category: SourceCategory, id: string): (s: Option<Season>)
    ensures s.Some? <==> category == Tiempos
    ensures s == Some(OrdinaryTime) <==> category == Tiempos && (|id| == 0 || id[0] !in "ANQSP")
    ensures category == Tiempos && |id| > 0 && id[0] == 'A' ==> s == Some(Advent)
    ensures category == Tiempos && |id| > 0 && id[0] == 'N' ==> s == Some(Christmas)
    ensures category == Tiempos && |id| > 0 && id[0] == 'Q' ==> s == Some(Lent)
    ensures category == Tiempos && |id| > 0 && id[0] == 'S' ==> s == Some(HolyWeek)
    ensures category == Tiempos && |id| > 0 && id[0] == 'P' ==> s == Some(Easter)
  {
    if category == Tiempos then
      Some(if StartsWith(id, "A") then Advent
           else if StartsWith(id, "N") then Christmas
           else if StartsWith(id, "Q") then Lent
           else if StartsWith(id, "S") then HolyWeek
           else if StartsWith(id, "P") then Easter
           else OrdinaryTime)
    else None
  }

  /** The stored category: SANTOS are saints, TIEMPOS seasons, everything else commons. */
  function MapCategory(category: SourceCategory): (c: MassCategory)
    ensures c in {Saints, Seasons, Commons}
    ensures c == Saints <==> category == Santos
    ensures c == Seasons <==> category == Tiempos
  {
    match category
    case Santos => Saints
    case Tiempos => Seasons
    case Comunes => Commons
  }

  /** `/^(\d{2})(\d{2})/`: month and day from four leading digits; anything may follow. */
  function ExtractMonthDay(id: string): (r: (Option<int>, Option<int>))
    ensures r.0.Some? <==> |id| >= 4 && AllDigits(id[..4])
    ensures r.0.Some? <==> r.1.Some?
    ensures r.0.Some? ==> 0 <= r.0.value < 100 && 0 <= r.1.value < 100
    ensures r.0.Some? ==> TwoDigits(r.0.value) == id[..2] && TwoDigits(r.1.value) == id[2..4]
  {
    if |id| >= 4 && AllDigits(id[..4]) then
      assert AllDigits(id[..2]) && AllDigits(id[2..4]);
      TwoDigitsOfParse(id[..2]);
      TwoDigitsOfParse(id[2..4]);
      (Some(ParseDecimal(id[..2]) as int), Some(ParseDecimal(id[2..4]) as int))
    else (None, None)
  }

  /** The fields the importer derives for one mass. */
  datatype DerivedFields = DerivedFields(code: string, category: MassCategory, season: Option<Season>,
                                         rank: LiturgicalRank, color: LiturgicalColor,
                                         month: Option<int>, day: Option<int>)

  function Derive(mass: ParsedMass): (r: DerivedFields)
    ensures r.code == mass.id
    ensures r.season.Some? <==> r.category == Seasons
    ensures (r.rank, r.color) == RankAndColor(mass.precedence)
    ensures r.category == MapCategory(mass.category)
    ensures r.season == InferSeason(mass.category, mass.id)
    ensures (r.month, r.day) == ExtractMonthDay(mass.id)
  {
    var (rank, color) := RankAndColor(mass.precedence);
    var (month, day) := ExtractMonthDay(mass.id);
    DerivedFields(mass.id, MapCategory(mass.category), InferSeason(mass.category, mass.id),
                  rank, color, month, day)
  }

  /** The stored row a derivation becomes, under the row id the database assigns. */
  function StoredRecord(rowId: string, d: DerivedFields): MassNavigation.MassRecord {
    MassNavigation.MassRecord(rowId, d.code, d.category, d.month, d.day)
  }

  /** For a saint code, the extracted month and day are the ones the code parser reads. */
  lemma {:induction false} ExtractAgreesWithSaintParser(id: string)
    requires GetMassCodeType(id) == Saint
    ensures var (month, day) := ExtractMonthDay(id);
      var p := ParseSaintCode(id).value;
      month == Some(p.month as int) && day == Some(p.day as int)
  {
    assert id[..4][..2] == id[..2] && id[..4][2..4] == id[2..4];
  }

  /** For a season code, the inferred season is the season its tag names. */
  lemma {:induction false} InferAgreesWithSeasonParser(id: string)
    requires ParseSeasonCode(id).Some?
    ensures InferSeason(Tiempos, id) == Some(ParseSeasonCode(id).value.season)
  {
    var tag := id[..|id| - 3];
    assert tag == [id[0]] || tag == [id[0], id[1]];
  }

  /**
   * A saint mass imported under a saint code is stored with a month and a day,
   * so the date-ordered saint searches of navigation can find it.
   */
  lemma {:induction false} ImportedSaintIsNavigable(rowId: string, mass: ParsedMass, start: string)
    requires mass.category == Santos && GetMassCodeType(mass.id) == Saint
    requires LexLe(start, mass.id)
    ensures MassNavigation.Matches(MassNavigation.SaintsFrom(start), StoredRecord(rowId, Derive(mass)))
  {
    ExtractAgreesWithSaintParser(mass.id);
  }
}
