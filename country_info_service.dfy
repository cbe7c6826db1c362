/**
 * CountryInfoService: initializeCountries takes the country list the external
 * provider yields and hands it to saveAll. The provider is the list it yields, or
 * the error it raises.
 */
module CountryInfoService {
  import opened Errors
  import opened Entity
  import opened Repositories
  import CountryService

  /**
   * initializeCountries: a provider error comes back as it is and nothing is saved;
   * otherwise the fetched list is saved once, after the stored countries, and saveAll's
   * result (the same list) is returned.
   */
  method InitializeCountries(repo: CountryRepository, fetched: Result<seq<Country>>) returns (r: Result<seq<Country>>)
    modifies repo
    ensures fetched.Failure? ==> r == Failure(fetched.error) && repo.countries == old(repo.countries)
    ensures fetched.Success? ==>
      r == Success(fetched.value) && repo.countries == old(repo.countries) + fetched.value
  {
    if fetched.Failure? {
      return Failure(fetched.error);
    }
    var saved := CountryService.SaveAll(repo, fetched.value);
    r := Success(saved);
  }
}
