/**
 * Next/previous navigation over the stored masses. The record store is a
 * sequence in the database's own row order; each lookup is a `findFirst`
 * query, modelled by a filter, an ordering and `FindFirst`.
 */
module MassNavigation {
  import opened Wrappers
  import opened Text
  import opened LiturgicalTypes
  import opened MassCodes

  /** The columns of a stored mass that navigation reads. */
  datatype MassRecord = MassRecord(id: string, code: string, category: MassCategory,
                                   month: Option<int>, day: Option<int>)

  /** The `mass` table, in row order. */
  type Store = seq<MassRecord>

  /** The `where` clauses of the navigation queries. */
  datatype Filter =
    | CodeIs(code: string, category: MassCategory)
      // category SAINTS, code >= start, month and day not null
    | SaintsFrom(start: string)
      // category SAINTS, code <= start, month and day not null
    | SaintsUpTo(start: string)
      // category COMMONS, code starts with the prefix and is > current
    | CommonsAfter(prefix: string, current: string)
      // category COMMONS, code starts with the prefix and is < current
    | CommonsBefore(prefix: string, current: string)

  predicate Matches(f: Filter, m: MassRecord) {
    match f
    case CodeIs(code, category) => m.code == code && m.category == category
    case SaintsFrom(start) =>
      m.category == Saints && LexLe(start, m.code) && m.month.Some? && m.day.Some?
    case SaintsUpTo(start) =>
      m.category == Saints && LexLe(m.code, start) && m.month.Some? && m.day.Some?
    case CommonsAfter(prefix, current) =>
      m.category == Commons && StartsWith(m.code, prefix) && LexLt(current, m.code)
    case CommonsBefore(prefix, current) =>
      m.category == Commons && StartsWith(m.code, prefix) && LexLt(m.code, current)
  }

  /** The `orderBy` clauses: none, by (month, day, code) either way, or by code either way. */
  datatype Ordering = Unordered | DateAsc | DateDesc | CodeAsc | CodeDesc

  function MonthKey(m: MassRecord): int { if m.month.Some? then m.month.value else 0 }

  function DayKey(m: MassRecord): int { if m.day.Some? then m.day.value else 0 }

  /** `a` sorts no later than `b` by month, then day, then code (both have a month and a day where it is used). */
  predicate DateLe(a: MassRecord, b: MassRecord) {
    || MonthKey(a) < MonthKey(b)
    || (MonthKey(a) == MonthKey(b) && (DayKey(a) < DayKey(b) || (DayKey(a) == DayKey(b) && LexLe(a.code, b.code))))
  }

  /** `a` may be returned ahead of `b` under the ordering. */
  predicate Precedes(o: Ordering, a: MassRecord, b: MassRecord) {
    match o
    case Unordered => true
    case DateAsc => DateLe(a, b)
    case DateDesc => DateLe(b, a)
    case CodeAsc => LexLe(a.code, b.code)
    case CodeDesc => LexLe(b.code, a.code)
  }

  lemma {:induction false} PrecedesTotal(o: Ordering, a: MassRecord, b: MassRecord)
    ensures Precedes(o, a, b) || Precedes(o, b, a)
  {
    LexLeTotal(a.code, b.code);
  }

  lemma {:induction false} PrecedesTransitive(o: Ordering, a: MassRecord, b: MassRecord, c: MassRecord)
    requires Precedes(o, a, b) && Precedes(o, b, c)
    ensures Precedes(o, a, c)
  {
    match o
    case Unordered =>
    case DateAsc =>
      if MonthKey(a) == MonthKey(b) == MonthKey(c) && DayKey(a) == DayKey(b) == DayKey(c) {
        LexLeTransitive(a.code, b.code, c.code);
      }
    case DateDesc =>
      if MonthKey(a) == MonthKey(b) == MonthKey(c) && DayKey(a) == DayKey(b) == DayKey(c) {
        LexLeTransitive(c.code, b.code, a.code);
      }
    case CodeAsc => LexLeTransitive(a.code, b.code, c.code);
    case CodeDesc => LexLeTransitive(c.code, b.code, a.code);
  }

  /**
   * `findFirst({ where, orderBy })`: a matching record that no matching
   * record precedes; among records the ordering does not separate, the one
   * that comes first in row order.
   */
  function FindFirst(store: Store, f: Filter, o: Ordering): (r: Option<MassRecord>)
    ensures r.Some? ==> r.value in store && Matches(f, r.value)
    ensures r.None? <==> forall m :: m in store ==> !Matches(f, m)
  {
    if |store| == 0 then None
    else
      var rest := FindFirst(store[1..], f, o);
      assert forall m :: m in store <==> m == store[0] || m in store[1..];
      if Matches(f, store[0]) && (rest.None? || Precedes(o, store[0], rest.value)) then Some(store[0])
      else rest
  }

  /** The record `FindFirst` returns comes first in the requested order among all matching records. */
  lemma {:induction false} FindFirstIsLeast(store: Store, f: Filter, o: Ordering)
    ensures var r := FindFirst(store, f, o);
      r.Some? ==> forall m :: m in store && Matches(f, m) ==> Precedes(o, r.value, m)
  {
    if |store| > 0 {
      FindFirstIsLeast(store[1..], f, o);
      var rest := FindFirst(store[1..], f, o);
      var r := FindFirst(store, f, o);
      assert forall m :: m in store <==> m == store[0] || m in store[1..];
      if r.Some? {
        if rest.Some? {
          PrecedesTotal(o, store[0], rest.value);
          forall m | m in store[1..] && Matches(f, m)
            ensures Precedes(o, r.value, m)
          {
            if r.value == store[0] {
              PrecedesTransitive(o, store[0], rest.value, m);
            }
          }
        }
        PrecedesReflexive(o, r.value);
      }
    }
  }

  lemma PrecedesReflexive(o: Ordering, a: MassRecord)
    ensures Precedes(o, a, a)
  {
    LexLeReflexive(a.code);
  }

  /** Without an ordering, `FindFirst` returns the first matching record in row order. */
  lemma {:induction false} UnorderedIsFirstInRowOrder(store: Store, f: Filter)
    ensures var r := FindFirst(store, f, Unordered);
      r.Some? ==> exists i :: 0 <= i < |store| && store[i] == r.value
                              && forall j :: 0 <= j < i ==> !Matches(f, store[j])
  {
    var r := FindFirst(store, f, Unordered);
    if |store| > 0 && Matches(f, store[0]) {
      assert store[0] == r.value;
    } else if |store| > 0 && r.Some? {
      UnorderedIsFirstInRowOrder(store[1..], f);
      assert r == FindFirst(store[1..], f, Unordered);
      var i :| 0 <= i < |store| - 1 && store[1..][i] == r.value
               && forall j :: 0 <= j < i ==> !Matches(f, store[1..][j]);
      forall j | 0 <= j < i + 1
        ensures !Matches(f, store[j])
      {
        if j > 0 {
          assert store[j] == store[1..][j - 1];
        }
      }
      assert store[i + 1] == r.value;
    }
  }

  /** `findNextAvailableSaint`: the exact code if it is stored, else the earliest saint mass from that code on. */
  function FindNextAvailableSaint(store: Store, startCode: string): (r: Option<MassRecord>)
    ensures r.Some? ==> r.value in store && r.value.category == Saints
    ensures r.Some? ==> r.value.code == startCode || Matches(SaintsFrom(startCode), r.value)
    ensures (exists m :: m in store && Matches(CodeIs(startCode, Saints), m)) ==> r.Some? && r.value.code == startCode
    ensures r.None? <==> forall m :: m in store ==> !Matches(CodeIs(startCode, Saints), m) && !Matches(SaintsFrom(startCode), m)
  {
    match FindFirst(store, CodeIs(startCode, Saints), Unordered)
    case Some(m) => Some(m)
    case None => FindFirst(store, SaintsFrom(startCode), DateAsc)
  }

  /** `findPreviousAvailableSaint`: the exact code if it is stored, else the latest saint mass up to that code. */
  function FindPreviousAvailableSaint(store: Store, startCode: string): (r: Option<MassRecord>)
    ensures r.Some? ==> r.value in store && r.value.category == Saints
    ensures r.Some? ==> r.value.code == startCode || Matches(SaintsUpTo(startCode), r.value)
    ensures (exists m :: m in store && Matches(CodeIs(startCode, Saints), m)) ==> r.Some? && r.value.code == startCode
    ensures r.None? <==> forall m :: m in store ==> !Matches(CodeIs(startCode, Saints), m) && !Matches(SaintsUpTo(startCode), m)
  {
    match FindFirst(store, CodeIs(startCode, Saints), Unordered)
    case Some(m) => Some(m)
    case None => FindFirst(store, SaintsUpTo(startCode), DateDesc)
  }

  /** The category a code family is navigated in. */
  function FamilyCategory(t: MassCodeType): MassCategory {
    match t
    case Saint => Saints
    case Season => Seasons
    case Common => Commons
  }

  /**
   * `getNextMass`: the next saint day with a mass, the next day of the season,
   * or the next common with the same prefix; `None` when the code's family and
   * the category disagree.
   */
  function GetNextMass(store: Store, code: string, category: MassCategory): (r: Option<MassRecord>)
    ensures category != FamilyCategory(GetMassCodeType(code)) ==> r.None?
    ensures r.Some? ==> r.value in store && r.value.category == category
    // saints: no wrap past December 31; otherwise the next day's code or a later saint mass
    ensures category == Saints && GetMassCodeType(code) == Saint && GetNextSaintCode(code).None? ==> r.None?
    ensures r.Some? && category == Saints ==>
      GetNextSaintCode(code).Some?
      && (r.value.code == GetNextSaintCode(code).value || Matches(SaintsFrom(GetNextSaintCode(code).value), r.value))
    // seasons: exactly the stored row of the next day's code, if there is one
    ensures r.Some? && category == Seasons ==> Some(r.value.code) == GetNextSeasonCode(code)
    ensures category == Seasons && GetMassCodeType(code) == Season ==>
      (r.Some? <==> GetNextSeasonCode(code).Some?
                    && exists m :: m in store && Matches(CodeIs(GetNextSeasonCode(code).value, Seasons), m))
    ensures r.Some? && category == Commons ==>
      StartsWith(r.value.code, StripTrailingDigits(code)) && LexLt(code, r.value.code)
  {
    var t := GetMassCodeType(code);
    if t == Saint && category == Saints then
      match GetNextSaintCode(code)
      case None => None
      case Some(next) => FindNextAvailableSaint(store, next)
    else if t == Season && category == Seasons then
      match GetNextSeasonCode(code)
      case None => None
      case Some(next) => FindFirst(store, CodeIs(next, Seasons), Unordered)
    else if t == Common && category == Commons then
      FindFirst(store, CommonsAfter(StripTrailingDigits(code), code), CodeAsc)
    else None
  }

  /**
   * `getPreviousMass`, the mirror image of `GetNextMass`. It throws exactly
   * when `getPreviousSaintCode` does.
   */
  function GetPreviousMass(store: Store, code: string, category: MassCategory): (r: Fallible<Option<MassRecord>>)
    ensures r.Throws? <==> category == Saints && GetMassCodeType(code) == Saint && GetPreviousSaintCode(code).Throws?
    ensures category != FamilyCategory(GetMassCodeType(code)) ==> r == Returns(None)
    ensures r.Returns? && r.value.Some? ==> r.value.value in store && r.value.value.category == category
    // saints: no wrap before January 1; otherwise the previous day's code or an earlier saint mass
    ensures category == Saints && GetMassCodeType(code) == Saint && GetPreviousSaintCode(code) == Returns(None) ==>
      r == Returns(None)
    ensures r.Returns? && r.value.Some? && category == Saints ==>
      && GetPreviousSaintCode(code).Returns? && GetPreviousSaintCode(code).value.Some?
      && var previous := GetPreviousSaintCode(code).value.value;
      r.value.value.code == previous || Matches(SaintsUpTo(previous), r.value.value)
    // seasons: exactly the stored row of the previous day's code, if there is one
    ensures r.Returns? && r.value.Some? && category == Seasons ==> Some(r.value.value.code) == GetPreviousSeasonCode(code)
    ensures category == Seasons && GetMassCodeType(code) == Season ==>
      r.Returns?
      && (r.value.Some? <==> GetPreviousSeasonCode(code).Some?
                             && exists m :: m in store && Matches(CodeIs(GetPreviousSeasonCode(code).value, Seasons), m))
    ensures r.Returns? && r.value.Some? && category == Commons ==>
      StartsWith(r.value.value.code, StripTrailingDigits(code)) && LexLt(r.value.value.code, code)
  {
    var t := GetMassCodeType(code);
    if t == Saint && category == Saints then
      match GetPreviousSaintCode(code)
      case Throws => Throws
      case Returns(None) => Returns(None)
      case Returns(Some(previous)) => Returns(FindPreviousAvailableSaint(store, previous))
    else if t == Season && category == Seasons then
      match GetPreviousSeasonCode(code)
      case None => Returns(None)
      case Some(previous) => Returns(FindFirst(store, CodeIs(previous, Seasons), Unordered))
    else if t == Common && category == Commons then
      Returns(FindFirst(store, CommonsBefore(StripTrailingDigits(code), code), CodeDesc))
    else Returns(None)
  }

  /** The next common is the nearest one after the code: no stored common of the same prefix lies strictly between. */
  lemma {:induction false} NextCommonIsNearest(store: Store, code: string)
    requires GetMassCodeType(code) == Common
    ensures var r := GetNextMass(store, code, Commons);
      && (r.None? <==> forall m :: m in store ==> !Matches(CommonsAfter(StripTrailingDigits(code), code), m))
      && (r.Some? ==> forall m :: m in store && Matches(CommonsAfter(StripTrailingDigits(code), code), m) ==>
                                 LexLe(r.value.code, m.code))
  {
    FindFirstIsLeast(store, CommonsAfter(StripTrailingDigits(code), code), CodeAsc);
  }

  /** The previous common is the nearest one before the code. */
  lemma {:induction false} PreviousCommonIsNearest(store: Store, code: string)
    requires GetMassCodeType(code) == Common
    ensures var r := GetPreviousMass(store, code, Commons);
      && r.Returns?
      && (r.value.None? <==> forall m :: m in store ==> !Matches(CommonsBefore(StripTrailingDigits(code), code), m))
      && (r.value.Some? ==> forall m :: m in store && Matches(CommonsBefore(StripTrailingDigits(code), code), m) ==>
                                       LexLe(m.code, r.value.value.code))
  {
    FindFirstIsLeast(store, CommonsBefore(StripTrailingDigits(code), code), CodeDesc);
  }

  /**
   * When the next day's code is not stored, the next saint mass is the
   * earliest by (month, day, code) among the saint masses whose code is at or
   * after that day's code.
   */
  lemma {:induction false} NextSaintSkipsEmptyDays(store: Store, code: string)
    requires GetMassCodeType(code) == Saint && GetNextSaintCode(code).Some?
    requires forall m :: m in store ==> !Matches(CodeIs(GetNextSaintCode(code).value, Saints), m)
    ensures var r := GetNextMass(store, code, Saints);
      var f := SaintsFrom(GetNextSaintCode(code).value);
      && (r.None? <==> forall m :: m in store ==> !Matches(f, m))
      && (r.Some? ==> Matches(f, r.value) && forall m :: m in store && Matches(f, m) ==> DateLe(r.value, m))
  {
    var next := GetNextSaintCode(code).value;
    assert FindFirst(store, CodeIs(next, Saints), Unordered).None?;
    FindFirstIsLeast(store, SaintsFrom(next), DateAsc);
  }

  /**
   * When the previous day's code is not stored, the previous saint mass is the
   * latest by (month, day, code) among the saint masses whose code is at or
   * before that day's code.
   */
  lemma {:induction false} PreviousSaintSkipsEmptyDays(store: Store, code: string)
    requires GetMassCodeType(code) == Saint && GetPreviousSaintCode(code).Returns?
    requires GetPreviousSaintCode(code).value.Some?
    requires forall m :: m in store ==> !Matches(CodeIs(GetPreviousSaintCode(code).value.value, Saints), m)
    ensures var r := GetPreviousMass(store, code, Saints);
      var f := SaintsUpTo(GetPreviousSaintCode(code).value.value);
      && r.Returns?
      && (r.value.None? <==> forall m :: m in store ==> !Matches(f, m))
      && (r.value.Some? ==> Matches(f, r.value.value) && forall m :: m in store && Matches(f, m) ==> DateLe(m, r.value.value))
  {
    var previous := GetPreviousSaintCode(code).value.value;
    assert FindFirst(store, CodeIs(previous, Saints), Unordered).None?;
    FindFirstIsLeast(store, SaintsUpTo(previous), DateDesc);
  }

  /** When the next day's code is stored, the next saint mass carries exactly that code. */
  lemma {:induction false} NextSaintPrefersExactDay(store: Store, code: string, i: nat)
    requires GetMassCodeType(code) == Saint && GetNextSaintCode(code).Some?
    requires i < |store| && Matches(CodeIs(GetNextSaintCode(code).value, Saints), store[i])
    ensures var r := GetNextMass(store, code, Saints);
      r.Some? && r.value.code == GetNextSaintCode(code).value
  {
  }

  /** When the previous day's code is stored, the previous saint mass carries exactly that code, ahead of the fallback search. */
  lemma {:induction false} PreviousSaintPrefersExactDay(store: Store, code: string, i: nat)
    requires GetMassCodeType(code) == Saint && GetPreviousSaintCode(code).Returns?
    requires GetPreviousSaintCode(code).value.Some?
    requires i < |store| && Matches(CodeIs(GetPreviousSaintCode(code).value.value, Saints), store[i])
    ensures var r := GetPreviousMass(store, code, Saints);
      r.Returns? && r.value.Some? && r.value.value.code == GetPreviousSaintCode(code).value.value
  {
    assert store[i] in store;
  }
}
