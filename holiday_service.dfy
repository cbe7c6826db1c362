/**
 * HolidayService: the paged query, deletion by date and owner, and upsertAll, which
 * resolves the country, reconciles every fetched holiday in list order and appends them.
 */
module HolidayService {
  import opened Options
  import opened Errors
  import opened Dates
  import opened Entity
  import opened Repositories
  import HolidayQuery
  import CountryService

  /** getHolidays: the repository's query result, unchanged. */
  function GetHolidays(repo: HolidayRepository, cond: HolidayQuery.SearchCondition, pageable: HolidayQuery.Pageable): (r: HolidayQuery.Page)
    reads repo
    ensures r == HolidayQuery.FindHolidaysByFilters(repo.rows, cond, pageable)
    ensures r.total <= |repo.rows| && |r.content| <= pageable.pageSize
  {
    repo.FindHolidaysByFilters(cond, pageable)
  }

  /** deleteByDateAndCountry: the rows with exactly this date and owner are removed. */
  method DeleteByDateAndCountry(repo: HolidayRepository, date: LocalDate, country: Country)
    modifies repo
    ensures repo.rows == WithoutDateAndCountry(old(repo.rows), date, country)
  {
    repo.DeleteByDateAndCountry(date, country);
  }

  /** addCountry(year, c) on a holiday in state a succeeds and leaves it in state b. */
  predicate Settles(a: HolidayRow, b: HolidayRow, year: LocalDate, c: Country) {
    Reconcile(a, year, c) == Success(b)
  }

  /**
   * The state a forEach that throws at position k leaves: the holidays before k are
   * reconciled, the k-th is rejected, owned and keeps its date, and the later ones that
   * did not occur up to k are untouched.
   */
  twostate predicate RejectedAt(holidays: seq<Holiday>, k: int, year: LocalDate, country: Country)
    reads set h | h in holidays
  {
    && 0 <= k < |holidays|
    && (forall j :: 0 <= j < k ==> Settles(old(holidays[j].Row()), holidays[j].Row(), year, country))
    && Reconcile(old(holidays[k].Row()), year, country).Failure?
    && holidays[k].Row() == old(holidays[k].Row()).(country := country)
    && (forall j :: k < j < |holidays| && (forall m :: 0 <= m <= k ==> holidays[m] != holidays[j]) ==>
         holidays[j].Row() == old(holidays[j].Row()))
  }

  /**
   * holidays.forEach(h -> h.addCountry(year, country)), in list order. A holiday that
   * occurs twice is reconciled twice, which changes nothing the second time.
   */
  method AddCountryToEach(holidays: seq<Holiday>, year: LocalDate, country: Country) returns (r: Outcome)
    modifies set h | h in holidays
    ensures r.Pass? ==> forall j :: 0 <= j < |holidays| ==>
      Settles(old(holidays[j].Row()), holidays[j].Row(), year, country)
    ensures r.Fail? ==> r.error == DateTime && exists k :: RejectedAt(holidays, k, year, country)
  {
    ghost var seen: set<Holiday> := {};
    var i := 0;
    while i < |holidays|
      invariant 0 <= i <= |holidays|
      invariant seen == set m | 0 <= m < i :: holidays[m]
      invariant forall j :: 0 <= j < |holidays| && holidays[j] in seen ==>
                  Settles(old(holidays[j].Row()), holidays[j].Row(), year, country)
      invariant forall j :: 0 <= j < |holidays| && holidays[j] !in seen ==> holidays[j].Row() == old(holidays[j].Row())
    {
      var h := holidays[i];
      if h in seen {
        ReconcileIdempotent(old(h.Row()), year, country);
      }
      var outcome := h.AddCountry(year, country);
      if outcome.Fail? {
        assert RejectedAt(holidays, i, year, country);
        return outcome;
      }
      seen := seen + {h};
      i := i + 1;
    }
    r := Pass;
  }

  /** Rows that each reconcile to the matching new row reconcile all together to those rows. */
  lemma AllAccepted(rows: seq<HolidayRow>, now: seq<HolidayRow>, year: LocalDate, c: Country)
    requires |rows| == |now|
    requires forall j :: 0 <= j < |rows| ==> Settles(rows[j], now[j], year, c)
    ensures ReconcileAll(rows, year, c) == Success(now)
  {
    assert ReconcileAll(rows, year, c).value == now;
  }

  /** One rejected row rejects the whole list, with the DateTimeException. */
  lemma RejectionFails(rows: seq<HolidayRow>, year: LocalDate, c: Country, k: nat)
    requires k < |rows| && Reconcile(rows[k], year, c).Failure?
    ensures ReconcileAll(rows, year, c) == Failure(DateTime)
  {
  }

  /**
   * upsertAll(holidays, year, countryCode): an unknown code fails with
   * NoSuchElementException before anything is touched; otherwise every holiday is
   * reconciled in list order and, when none is rejected, the reconciled holidays are
   * appended to the store. Nothing already stored is removed or replaced.
   */
  method UpsertAll(holidayRepo: HolidayRepository, countryRepo: CountryRepository,
                   holidays: seq<Holiday>, year: LocalDate, countryCode: string) returns (r: Outcome)
    modifies holidayRepo, set h | h in holidays
    ensures CountryService.FindByCountryCode(countryRepo, countryCode).Failure? ==>
      r == Fail(NoSuchElement) && holidayRepo.rows == old(holidayRepo.rows) &&
      forall j :: 0 <= j < |holidays| ==> holidays[j].Row() == old(holidays[j].Row())
    ensures CountryService.FindByCountryCode(countryRepo, countryCode).Success? ==>
      var c := CountryService.FindByCountryCode(countryRepo, countryCode).value;
      && r == ToOutcome(ReconcileAll(old(RowsOf(holidays)), year, c))
      && (r.Pass? ==> RowsOf(holidays) == ReconcileAll(old(RowsOf(holidays)), year, c).value)
      && (r.Pass? ==> holidayRepo.rows == old(holidayRepo.rows) + RowsOf(holidays))
      && (r.Fail? ==> holidayRepo.rows == old(holidayRepo.rows) && exists k :: RejectedAt(holidays, k, year, c))
  {
    ghost var before := RowsOf(holidays);
    var found := CountryService.FindByCountryCode(countryRepo, countryCode);
    if found.Failure? {
      return Fail(found.error);
    }
    r := AddCountryToEach(holidays, year, found.value);
    if r.Pass? {
      AllAccepted(before, RowsOf(holidays), year, found.value);
      var _ := holidayRepo.SaveAll(holidays);
    } else {
      ghost var k :| RejectedAt(holidays, k, year, found.value);
      RejectionFails(before, year, found.value, k);
    }
  }
}
