/**
 * The three constraint validators: the date range of a search condition, and the
 * existence of a country code or a country name in the country store.
 */
module Validators {
  import opened Options
  import opened Dates
  import opened Entity
  import opened Repositories
  import opened HolidayQuery

  // ---- DateRangeValidator ----

  /** Valid when a bound is missing, or when the start is before or equal to the end. */
  function DateRangeIsValid(cond: SearchCondition): (b: bool)
    ensures b <==> cond.startDate.None? || cond.endDate.None? || LessEq(cond.startDate.value, cond.endDate.value)
    ensures b <==> cond.startDate.None? || cond.endDate.None? ||
                   DayNumber(cond.startDate.value) <= DayNumber(cond.endDate.value)
  {
    if cond.startDate.None? || cond.endDate.None? then true
    else
      var s, e := cond.startDate.value, cond.endDate.value;
      ChronologicalOrder(s, e);
      Before(s, e) || s == e
  }

  /**
   * The validator rejects exactly the ranges that could select nothing: when it accepts
   * a range with both bounds, the start date itself passes the query's date predicate;
   * when it rejects one, no date does.
   */
  lemma RejectedRangesAreEmpty(cond: SearchCondition)
    requires cond.startDate.Some? && cond.endDate.Some?
    ensures DateRangeIsValid(cond) ==> DateHolds(DateBetween(cond.startDate, cond.endDate), cond.startDate.value)
    ensures !DateRangeIsValid(cond) ==> forall d: LocalDate :: !DateHolds(DateBetween(cond.startDate, cond.endDate), d)
  {
    var s, e := cond.startDate.value, cond.endDate.value;
    if !DateRangeIsValid(cond) {
      forall d: LocalDate ensures !DateHolds(DateBetween(cond.startDate, cond.endDate), d) {
        ChronologicalOrder(s, d);
        ChronologicalOrder(d, e);
        ChronologicalOrder(s, e);
      }
    }
  }

  lemma SameDayIsValid(cond: SearchCondition)
    requires cond.startDate.Some? && cond.startDate == cond.endDate
    ensures DateRangeIsValid(cond)
  {
  }

  lemma LaterStartIsInvalid(cond: SearchCondition)
    requires cond.startDate == Some(Date(2025, 12, 31)) && cond.endDate == Some(Date(2025, 1, 1))
    ensures !DateRangeIsValid(cond)
  {
  }

  /** New Year's Eve comes before the next New Year's Day. */
  lemma AcrossYearBoundary(cond: SearchCondition)
    requires cond.startDate == Some(Date(2024, 12, 31)) && cond.endDate == Some(Date(2025, 1, 1))
    ensures DateRangeIsValid(cond)
    ensures DayNumber(cond.endDate.value) == DayNumber(cond.startDate.value) + 1
  {
    YearBoundary(2024);
  }

  // ---- ExistsCountryCodeValidator and ExistsCountryNameValidator ----

  /** Valid when the value is present and some stored country has exactly that code. */
  function CountryCodeExists(repo: CountryRepository, value: Option<string>): (b: bool)
    reads repo
    ensures b <==> value.Some? && exists c :: c in repo.countries && c.countryCode == value.value
  {
    value.Some? && ExistsByCountryCode(repo.countries, value.value)
  }

  /** Valid when the value is present and some stored country has exactly that name. */
  function CountryNameExists(repo: CountryRepository, value: Option<string>): (b: bool)
    reads repo
    ensures b <==> value.Some? && exists c :: c in repo.countries && c.name == value.value
  {
    value.Some? && ExistsByName(repo.countries, value.value)
  }

  /** A code differing only in letter case is not found. */
  lemma CodeMatchIsCaseSensitive(repo: CountryRepository, korea: Country)
    requires repo.countries == [korea] && korea.countryCode == "KR"
    ensures CountryCodeExists(repo, Some("KR"))
    ensures !CountryCodeExists(repo, Some("kr"))
    ensures !CountryCodeExists(repo, None)
  {
    assert "kr"[0] != "KR"[0];
  }

  /** Empty and blank codes are looked up untrimmed. */
  lemma BlankCodeIsLookedUpAsIs(repo: CountryRepository, korea: Country)
    requires repo.countries == [korea] && korea.countryCode == "KR"
    ensures !CountryCodeExists(repo, Some(""))
    ensures !CountryCodeExists(repo, Some(" KR"))
  {
    assert " KR"[0] != "KR"[0];
  }

  /** Names are compared character by character, accents included. */
  lemma NameMatchIsVerbatim(repo: CountryRepository, ivoryCoast: Country)
    requires repo.countries == [ivoryCoast] && ivoryCoast.name == "Côte d'Ivoire"
    ensures CountryNameExists(repo, Some("Côte d'Ivoire"))
    ensures !CountryNameExists(repo, Some("Cote d'Ivoire"))
    ensures !CountryNameExists(repo, Some("côte d'ivoire"))
    ensures !CountryNameExists(repo, Some(""))
    ensures !CountryNameExists(repo, None)
  {
    assert "Cote d'Ivoire"[1] != "Côte d'Ivoire"[1];
    assert "côte d'ivoire"[0] != "Côte d'Ivoire"[0];
  }
}
