/**
 * The two stores (CountryRepository and HolidayRepository): the country table as a
 * sequence of Country references, the holiday table as a sequence of row values.
 */
module Repositories {
  import opened Options
  import opened Dates
  import opened Entity
  import opened Seqs
  import HolidayQuery

  /** findByCountryCode: an exact, case-sensitive match on the code. */
  function FindByCountryCode(countries: seq<Country>, code: string): (r: Option<Country>)
    ensures r.Some? ==> r.value in countries && r.value.countryCode == code
    ensures r.None? <==> forall c :: c in countries ==> c.countryCode != code
  {
    FirstMatch(countries, (c: Country) => c.countryCode == code)
  }

  /**
   * With codes that no two stored countries share, the lookup is the one country with
   * that code.
   */
  lemma UniqueCodeFindsThatCountry(countries: seq<Country>, c: Country)
    requires c in countries
    requires forall i, j :: 0 <= i < j < |countries| ==> countries[i].countryCode != countries[j].countryCode
    ensures FindByCountryCode(countries, c.countryCode) == Some(c)
  {
    var r := FindByCountryCode(countries, c.countryCode);
    var i :| 0 <= i < |countries| && countries[i] == c;
    var k :| 0 <= k < |countries| && countries[k] == r.value;
  }

  /** existsByCountryCode: an exact, case-sensitive match on the code. */
  function ExistsByCountryCode(countries: seq<Country>, code: string): (b: bool)
    ensures b <==> exists c :: c in countries && c.countryCode == code
  {
    FindByCountryCode(countries, code).Some?
  }

  /** existsByName: an exact, case-sensitive match on the name. */
  function ExistsByName(countries: seq<Country>, name: string): (b: bool)
    ensures b <==> exists c :: c in countries && c.name == name
  {
    var r := FirstMatch(countries, (c: Country) => c.name == name);
    assert r.Some? ==> r.value in countries;
    assert (exists c :: c in countries && c.name == name) ==> r.Some? by {
      if exists c :: c in countries && c.name == name {
        var c :| c in countries && c.name == name;
        var i :| 0 <= i < |countries| && countries[i] == c;
      }
    }
    r.Some?
  }

  class CountryRepository {
    var countries: seq<Country>

    constructor ()
      ensures countries == []
    {
      countries := [];
    }

    /** saveAll: the given countries are stored after the existing ones and handed back. */
    method SaveAll(cs: seq<Country>) returns (saved: seq<Country>)
      modifies this
      ensures countries == old(countries) + cs
      ensures saved == cs
    {
      countries := countries + cs;
      saved := cs;
    }
  }

  /** The rows a deleteByDateAndCountry(date, country) leaves behind. */
  function WithoutDateAndCountry(rows: seq<HolidayRow>, date: LocalDate, country: Country): (r: seq<HolidayRow>)
    ensures forall h :: h in r ==> h in rows && !(h.date == date && h.country == country)
    ensures forall h :: h in rows && !(h.date == date && h.country == country) ==> h in r
    ensures forall h :: h in rows && !(h.date == date && h.country == country) ==>
      multiset(r)[h] == multiset(rows)[h]
  {
    var r := Filter(rows, (h: HolidayRow) => !(h.date == date && h.country == country));
    assert forall h :: h in rows && !(h.date == date && h.country == country) ==> multiset(r)[h] > 0;
    r
  }

  /** Deleting when no row matches leaves the store as it was. */
  lemma DeleteWithoutMatch(rows: seq<HolidayRow>, date: LocalDate, country: Country)
    requires forall h :: h in rows ==> !(h.date == date && h.country == country)
    ensures WithoutDateAndCountry(rows, date, country) == rows
  {
    FilterKeepsAll(rows, (h: HolidayRow) => !(h.date == date && h.country == country));
  }

  /** Deletion works row by row, so the surviving rows keep their relative order. */
  lemma DeleteKeepsOrder(a: seq<HolidayRow>, b: seq<HolidayRow>, date: LocalDate, country: Country)
    ensures WithoutDateAndCountry(a + b, date, country) ==
            WithoutDateAndCountry(a, date, country) + WithoutDateAndCountry(b, date, country)
  {
    FilterConcat(a, b, (h: HolidayRow) => !(h.date == date && h.country == country));
  }

  /** The match is on the whole date: another day of the same year survives. */
  lemma DeleteMatchesWholeDate(h: HolidayRow, date: LocalDate, country: Country)
    requires h.country == country && h.date.year == date.year && h.date != date
    ensures WithoutDateAndCountry([h], date, country) == [h]
  {
    DeleteWithoutMatch([h], date, country);
  }

  class HolidayRepository {
    var rows: seq<HolidayRow>

    constructor ()
      ensures rows == []
    {
      rows := [];
    }

    /** saveAll: the current state of each given holiday is appended as a row. */
    method SaveAll(hs: seq<Holiday>) returns (saved: seq<Holiday>)
      modifies this
      ensures rows == old(rows) + RowsOf(hs)
      ensures saved == hs
    {
      rows := rows + RowsOf(hs);
      saved := hs;
    }

    /** deleteByDateAndCountry: removes the rows with exactly this date and this owner. */
    method DeleteByDateAndCountry(date: LocalDate, country: Country)
      modifies this
      ensures rows == WithoutDateAndCountry(old(rows), date, country)
    {
      rows := WithoutDateAndCountry(rows, date, country);
    }

    /** findHolidaysByFilters over the current rows: the custom implementation's query. */
    function FindHolidaysByFilters(cond: HolidayQuery.SearchCondition, pageable: HolidayQuery.Pageable): (r: HolidayQuery.Page)
      reads this
      ensures r == HolidayQuery.FindHolidaysByFilters(rows, cond, pageable)
      ensures forall v :: v in r.content ==> exists h :: h in rows && HolidayQuery.Matches(cond, h) && v == HolidayQuery.View(h)
      ensures r.total <= |rows|
    {
      HolidayQuery.ContentFromMatchingRows(rows, cond, pageable);
      HolidayQuery.FindHolidaysByFilters(rows, cond, pageable)
    }
  }
}
