/**
 * DataInitializer: the start-up bootstrap. It initialises countries and then their
 * holidays only on a first run, i.e. when the stored country count is 0, and it
 * never lets an initialisation error escape.
 */
module DataInitializer {
  import opened Options
  import opened Errors
  import opened Entity
  import opened Repositories
  import opened HolidayWebClient
  import CountryService
  import CountryInfoService
  import HolidayInfoService

  /** The bootstrap decision on the blocked count: a present count equal to 0. */
  function ShouldInitialize(count: Option<int>): (b: bool)
    ensures b <==> count == Some(0)
  {
    match count
    case None => false
    case Some(n) => n == 0
  }

  /** A count that is absent, or one that is positive, skips the initialisation. */
  lemma SkippedUnlessZero(n: int)
    ensures !ShouldInitialize(None)
    ensures n > 0 ==> !ShouldInitialize(Some(n))
    ensures ShouldInitialize(Some(0))
  {
  }

  /**
   * run: on a first run the countries are initialised, and on success initializeHolidays
   * receives exactly the saved list, looking each code up in the store that now holds it.
   * A failed country initialisation stops there; every error is swallowed.
   */
  method Run(api: HolidayApi, holidayRepo: HolidayRepository, countryRepo: CountryRepository,
             fetched: Result<seq<Country>>)
    modifies holidayRepo, countryRepo
    ensures !ShouldInitialize(Some(|old(countryRepo.countries)|)) ==>
      countryRepo.countries == old(countryRepo.countries) && holidayRepo.rows == old(holidayRepo.rows)
    ensures ShouldInitialize(Some(|old(countryRepo.countries)|)) && fetched.Failure? ==>
      countryRepo.countries == [] && holidayRepo.rows == old(holidayRepo.rows)
    ensures ShouldInitialize(Some(|old(countryRepo.countries)|)) && fetched.Success? ==>
      countryRepo.countries == fetched.value &&
      holidayRepo.rows == old(holidayRepo.rows) + HolidayInfoService.Written(
        HolidayInfoService.Results(api, fetched.value,
          HolidayInfoService.Tasks(HolidayInfoService.CountryCodes(fetched.value), HolidayInfoService.InitYears())))
  {
    var count := CountryService.Count(countryRepo);
    if !ShouldInitialize(Some(count)) {
      return;
    }
    var countries := CountryInfoService.InitializeCountries(countryRepo, fetched);
    assert [] + (if fetched.Success? then fetched.value else []) == countryRepo.countries;
    if countries.Failure? {
      return;
    }
    var _ := HolidayInfoService.InitializeHolidays(api, holidayRepo, countryRepo, countries.value);
  }

  /**
   * On a first run every task's country code is found in the store: each code comes
   * from a country that has just been saved, so no task fails with NoSuchElementException.
   */
  lemma EveryTaskCountryIsStored(countries: seq<Country>, years: seq<int>, t: HolidayInfoService.Task)
    requires t in HolidayInfoService.Tasks(HolidayInfoService.CountryCodes(countries), years)
    ensures FindByCountryCode(countries, t.countryCode).Some?
    ensures t.year in years
  {
    var codes := HolidayInfoService.CountryCodes(countries);
    HolidayInfoService.TaskYearsAreGivenYears(codes, years);
    var i :| 0 <= i < |codes| && codes[i] == t.countryCode;
    assert countries[i] in countries;
  }
}
