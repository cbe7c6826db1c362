/**
 * HolidayDataSyncScheduler: the annual job re-syncs the previous and the current year
 * for every stored country. "Today" is a parameter; the errors of the job never escape.
 */
module Scheduler {
  import opened Errors
  import opened Dates
  import opened Entity
  import opened Repositories
  import opened HolidayWebClient
  import HolidayInfoService

  /**
   * The years to sync: today.minusYears(1).getYear(), then today.getYear(). minusYears
   * throws a DateTimeException only when the previous year leaves LocalDate's range.
   */
  function SyncYears(today: LocalDate): (r: Result<seq<int>>)
    ensures r.Success? <==> ValidYear(today.year - 1)
    ensures r.Success? ==> r.value == [today.year - 1, today.year]
    ensures r.Failure? ==> r.error == DateTime
  {
    match MinusYears(today, 1)
    case Failure(e) => Failure(e)
    case Success(previous) => Success([previous.year, today.year])
  }

  /** Any ordinary date re-syncs exactly the year before it and its own year, in that order. */
  lemma SyncsPreviousAndCurrentYear(today: LocalDate)
    requires today.year > MinYear
    ensures SyncYears(today) == Success([today.year - 1, today.year])
  {
  }

  /** The job on 2 January 2026 re-syncs 2025 and 2026. */
  lemma SyncOnJanuarySecond()
    ensures Of(2026, 1, 2).Success?
    ensures SyncYears(Of(2026, 1, 2).value) == Success([2025, 2026])
  {
  }

  /** Each country gets one task per synced year: two per country, for the two years. */
  lemma TwoTasksPerCountry(countries: seq<Country>, today: LocalDate)
    requires SyncYears(today).Success?
    ensures |HolidayInfoService.Tasks(HolidayInfoService.CountryCodes(countries), SyncYears(today).value)| ==
      2 * |countries|
    ensures forall t :: t in HolidayInfoService.Tasks(HolidayInfoService.CountryCodes(countries), SyncYears(today).value) ==>
      t.year == today.year - 1 || t.year == today.year
  {
    HolidayInfoService.TaskYearsAreGivenYears(HolidayInfoService.CountryCodes(countries), SyncYears(today).value);
  }

  /**
   * syncHolidayData: the countries are every stored country (the database-backed
   * provider); syncHolidaysForYears runs once over them and the two years. A failure,
   * of the year computation or of the sync, is swallowed.
   */
  method SyncHolidayData(api: HolidayApi, holidayRepo: HolidayRepository, countryRepo: CountryRepository,
                         today: LocalDate)
    modifies holidayRepo
    ensures SyncYears(today).Failure? ==> holidayRepo.rows == old(holidayRepo.rows)
    ensures SyncYears(today).Success? ==>
      holidayRepo.rows == old(holidayRepo.rows) + HolidayInfoService.Written(
        HolidayInfoService.Results(api, countryRepo.countries,
          HolidayInfoService.Tasks(HolidayInfoService.CountryCodes(countryRepo.countries), SyncYears(today).value)))
  {
    var years := SyncYears(today);
    if years.Failure? {
      return;
    }
    var countries := countryRepo.countries;
    var _ := HolidayInfoService.SyncHolidaysForYears(api, holidayRepo, countryRepo, countries, years.value);
  }
}
