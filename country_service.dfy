/** CountryService: the count, the lookup by code with its not-found error, and saveAll. */
module CountryService {
  import opened Options
  import opened Errors
  import opened Entity
  import opened Repositories

  /** count(): the number of stored countries. */
  function Count(repo: CountryRepository): (n: nat)
    reads repo
    ensures n == |repo.countries|
    ensures n == 0 <==> repo.countries == []
  {
    |repo.countries|
  }

  /** findByCountryCode: the stored country with exactly this code, or NoSuchElementException. */
  function FindByCountryCode(repo: CountryRepository, code: string): (r: Result<Country>)
    reads repo
    ensures r.Success? ==> r.value in repo.countries && r.value.countryCode == code
    ensures r.Failure? <==> forall c :: c in repo.countries ==> c.countryCode != code
    ensures r.Failure? ==> r.error == NoSuchElement
  {
    match Repositories.FindByCountryCode(repo.countries, code)
    case Some(c) => Success(c)
    case None => Failure(NoSuchElement)
  }

  /** saveAll: the countries are stored after the existing ones and the same list is returned. */
  method SaveAll(repo: CountryRepository, countries: seq<Country>) returns (saved: seq<Country>)
    modifies repo
    ensures repo.countries == old(repo.countries) + countries
    ensures saved == countries && |saved| == |countries|
    ensures Count(repo) == old(Count(repo)) + |countries|
  {
    saved := repo.SaveAll(countries);
  }

  /** The lookup is exact: a code differing in letter case is not found. */
  lemma LookupIsCaseSensitive(repo: CountryRepository, korea: Country)
    requires repo.countries == [korea] && korea.countryCode == "KR"
    ensures FindByCountryCode(repo, "KR") == Success(korea)
    ensures FindByCountryCode(repo, "kr") == Failure(NoSuchElement)
  {
    assert "kr"[0] != "KR"[0];
  }

  /** After saveAll every saved country can be found by its code, and earlier finds still succeed. */
  lemma SavedCountriesAreFound(stored: seq<Country>, added: seq<Country>, code: string)
    ensures ExistsByCountryCode(stored + added, code) <==>
            ExistsByCountryCode(stored, code) || ExistsByCountryCode(added, code)
  {
    var all := stored + added;
    if ExistsByCountryCode(stored, code) {
      var c := Repositories.FindByCountryCode(stored, code).value;
      assert c in all;
    } else if ExistsByCountryCode(added, code) {
      var c := Repositories.FindByCountryCode(added, code).value;
      assert c in all;
    } else {
      forall c | c in all ensures c.countryCode != code {
        assert c in stored || c in added;
      }
    }
  }
}
