# holidayKeeply: a Dafny model of the holiday synchronisation and query core

holidayKeeply keeps a local copy of the public holidays of every country known to
an external public-holiday provider (Nager.Date). On its first start it loads the
country list and then
six years of holidays (2020 to 2025) for every country. Once a year a scheduled job
re-syncs the previous and the current year. Stored holidays are served through a
filtered, paged search and can be deleted by date and country.

This project models that core sequentially and in memory:

- the two entities, `Country` and `Holiday`, as classes whose mutable fields are
  updated in place (`Entity`);
- calendar dates as `java.time.LocalDate` treats them, proleptic Gregorian with the
  leap-year rule, `LocalDate.of`, `minusYears` (`Dates`);
- the country and holiday stores (`Repositories`) and the QueryDSL search over the
  holiday store (`HolidayQuery`);
- `HolidayService`, `CountryService`, `HolidayInfoService` and `CountryInfoService`;
- the start-up bootstrap `DataInitializer` and the annual `HolidayDataSyncScheduler`
  (`DataInitializer`, `Scheduler`);
- the URL building and error mapping of `HolidayWebClient` (`HolidayWebClient`);
- the three bean validators (`Validators`), the response envelope (`Responses`) and the
  error-code table (`Errors`).

The external provider is an input. For holidays it is a `HolidayApi`: the configured
path template together with the HTTP exchange, written as a function from URL to reply
(a body, an HTTP status error, or a transport error). For countries it is the result
that `CountryProvider.getCountries()` yields. The current date ("today") is
a parameter of the scheduler. Reactor pipelines are modelled as sequential code: a
`Mono` that completes with a value is a `Result` success, an error signal is a
`Result` failure carrying the exception (`Errors.Error`), and a `Mono<Void>` is an
`Outcome`.

Two behaviours of the code are easy to miss, and the model keeps both:

- `HolidayInfoService.deleteByDateAndCountry(year, countryName)` looks its
  `countryName` argument up with `findByCountryCode`. A country name such as
  "Japan" is therefore not found and fails with `NoSuchElementException`; nothing is
  deleted.
- The search treats `countryName` as optional. `countryNameEq` only tests it against
  `null`, so the model has no precondition that the name is present or refers to a
  stored country.

The paged result's total is what `PageImpl` reports for the unfiltered count the
query passes in: when the page is not empty and reaches past that count, `PageImpl`
reports `offset + content size` instead.

In the table below, "the store" is `CountryRepository.countries` or
`HolidayRepository.rows`. All source paths are under
`src/main/java/com/holidaykeeply/` unless they start with `src/test`.

## Model

| member | source | states |
|---|---|---|
| Entity.Country.constructor | src/main/java/com/holidaykeeply/domain/entity/Country.java:22-36 | a new country has the given id, code and name and an empty `holidays` list |
| Entity.Country.AddHoliday | src/main/java/com/holidaykeeply/domain/entity/Country.java:38-40 | `holidays` grows by exactly one; the holiday is the new last element; earlier elements keep their order; the holiday's own `country` reference is not set; id, code and name are constants |
| Entity.Holiday.constructor | src/main/java/com/holidaykeeply/domain/entity/Holiday.java:25-65 | the new holiday's state is exactly the given field values |
| Entity.Holiday.AddCountry | src/main/java/com/holidaykeeply/domain/entity/Holiday.java:67-70 | the owner is always set to the given country, before the date is rebuilt; the outcome is that of `Reconcile` on the old state; on success the new state is `Reconcile`'s value; when `LocalDate.of` throws, the date is left as it was |
| Entity.Reconcile | src/main/java/com/holidaykeeply/domain/entity/Holiday.java:67-70 | succeeds exactly unless the date is 29 February and the target year is not a leap year (then DateTimeException); on success the owner is the country, the year is `year.getYear()`, month and day are kept, and no other field changes |
| Entity.ReconcileIdempotent | src/main/java/com/holidaykeeply/domain/entity/Holiday.java:67-70 | applying addCountry twice with the same year and country gives the same state as applying it once |
| Entity.ReconcileAll | src/main/java/com/holidaykeeply/domain/service/HolidayService.java:45 | the forEach over a list succeeds exactly when every holiday can be moved; on success it gives the moved holidays element by element, in order; a failure is the DateTimeException |
| Entity.FirstRejected | src/main/java/com/holidaykeeply/domain/service/HolidayService.java:45 | the position where the forEach first throws: every holiday before it is moved, the one at it is rejected, and the whole list succeeds exactly when no holiday is rejected |
| Entity.ReconciledRows | src/main/java/com/holidaykeeply/domain/service/HolidayService.java:45 | after a successful forEach every holiday is owned by the country and dated in the target year with its month and day preserved |
| Entity.SameYearReconciles | src/main/java/com/holidaykeeply/domain/entity/Holiday.java:69 | holidays already dated in the target year are never rejected and keep their dates |
| Entity.RowsOf | src/main/java/com/holidaykeeply/domain/entity/Holiday.java:28-65 | the state of a list of holidays, one row per holiday, in order |
| Dates.Of | src/main/java/com/holidaykeeply/domain/entity/Holiday.java:69 | `LocalDate.of(y, m, d)` succeeds exactly when the triple is a valid ISO date (year range, month 1 to 12, day within the month's length under the Gregorian leap rule) and otherwise throws DateTimeException |
| Dates.MonthLength | src/main/java/com/holidaykeeply/domain/entity/Holiday.java:69 | every month has 28 to 31 days |
| Dates.WithYear | src/main/java/com/holidaykeeply/domain/entity/Holiday.java:69 | the same month and day in another year: defined exactly unless the year is out of range or the date is 29 February moved into a non-leap year |
| Dates.WithSameYear | src/main/java/com/holidaykeeply/domain/entity/Holiday.java:69 | rebuilding a date in its own year gives the same date |
| Dates.WithYearIdempotent | src/main/java/com/holidaykeeply/domain/entity/Holiday.java:69 | rebuilding twice in the same year is the same as rebuilding once |
| Dates.ChronologicalOrder | src/main/java/com/holidaykeeply/global/common/validator/DateRangeValidator.java:18 | the field-wise date order (`isBefore` or `isEqual`) is the order of day numbers, i.e. of the time line |
| Dates.EarlierIsSmaller | src/main/java/com/holidaykeeply/global/common/validator/DateRangeValidator.java:18 | an earlier date has a smaller day number |
| Dates.YearsAscend | src/main/java/com/holidaykeeply/global/common/validator/DateRangeValidator.java:18 | a later year starts after every day of an earlier year |
| Dates.MonthsAscend | src/main/java/com/holidaykeeply/global/common/validator/DateRangeValidator.java:18 | a later month starts after every day of an earlier month of the same year |
| Dates.InsideYear | src/main/java/com/holidaykeeply/global/common/validator/DateRangeValidator.java:18 | a date's day within its year is at most the year's length |
| Dates.NextYear | src/main/java/com/holidaykeeply/global/common/validator/DateRangeValidator.java:18 | the day count up to the next year adds the current year's length |
| Dates.YearBoundary | src/test/java/com/holidaykeeply/global/common/validator/DateRangeValidatorTest.java:136-152 | 1 January of year y + 1 is the day right after 31 December of year y |
| Dates.PlusYears | src/main/java/com/holidaykeeply/global/scheduler/HolidayDataSyncScheduler.java:40 | `plusYears(n)`: same month, the year moved by n, 29 February clamped to 28 in a non-leap year, DateTimeException when the year leaves the range |
| Dates.MinusYears | src/main/java/com/holidaykeeply/global/scheduler/HolidayDataSyncScheduler.java:40 | `minusYears(n)`: the year moved back by n, same month and day except that 29 February becomes 28 February in a non-leap year; DateTimeException exactly when the year leaves the range |
| Seqs.Filter | src/main/java/com/holidaykeeply/domain/infrastructure/repository/HolidayCustomRepositoryImpl.java:43-45 | keeps exactly the elements that satisfy the predicate, in order |
| Seqs.FilterKeepsAll | src/main/java/com/holidaykeeply/domain/infrastructure/repository/HolidayCustomRepositoryImpl.java:72-73 | a predicate that holds everywhere filters nothing out |
| Seqs.FilterConcat | src/main/java/com/holidaykeeply/domain/infrastructure/repository/HolidayCustomRepositoryImpl.java:43-45 | filtering distributes over concatenation |
| Seqs.FirstMatch | src/main/java/com/holidaykeeply/domain/service/CountryService.java:28 | the first element satisfying the predicate, or none exactly when no element does |
| HolidayQuery.DateBetween | src/main/java/com/holidaykeeply/domain/infrastructure/repository/HolidayCustomRepositoryImpl.java:65-75 | the date predicate holds exactly for start <= d <= end with both bounds, d >= start with a start only, d <= end with an end only, and always without bounds; there is no predicate exactly when both bounds are absent |
| HolidayQuery.CountryNameEq | src/main/java/com/holidaykeeply/domain/infrastructure/repository/HolidayCustomRepositoryImpl.java:61-63 | no predicate exactly for a null name; otherwise equality with that exact name (an empty name still filters) |
| HolidayQuery.Select | src/main/java/com/holidaykeeply/domain/infrastructure/repository/HolidayCustomRepositoryImpl.java:42-45 | the rows kept are exactly the stored rows that have an owner and satisfy both predicates, each matching row with all its copies and no more |
| HolidayQuery.Matches | src/main/java/com/holidaykeeply/domain/infrastructure/repository/HolidayCustomRepositoryImpl.java:37-45 | a row matches exactly when it has an owner (the join that `holiday.country.name` implies), lies on or after a given start and on or before a given end, and its owner has the given name |
| HolidayQuery.InsertByDate | src/main/java/com/holidaykeeply/domain/infrastructure/repository/HolidayCustomRepositoryImpl.java:46 | inserting into a newest-first list keeps it newest-first and adds exactly that row |
| HolidayQuery.SortByDateDesc | src/main/java/com/holidaykeeply/domain/infrastructure/repository/HolidayCustomRepositoryImpl.java:46 | `orderBy(date.desc())`: a newest-first permutation of its input |
| HolidayQuery.ConsDescending | src/main/java/com/holidaykeeply/domain/infrastructure/repository/HolidayCustomRepositoryImpl.java:46 | a row no older than every row of a newest-first list can go in front of it |
| HolidayQuery.MultisetMembers | src/main/java/com/holidaykeeply/domain/infrastructure/repository/HolidayCustomRepositoryImpl.java:46 | sorting adds no row: a member of the sorted list is the inserted row or was already there |
| HolidayQuery.Slice | src/main/java/com/holidaykeeply/domain/infrastructure/repository/HolidayCustomRepositoryImpl.java:47-48 | offset and limit: at most `limit` elements, starting at `offset`, empty past the end |
| HolidayQuery.Views | src/main/java/com/holidaykeeply/domain/infrastructure/repository/HolidayCustomRepositoryImpl.java:32-41 | one view per row, in order |
| HolidayQuery.View | src/main/java/com/holidaykeeply/domain/infrastructure/repository/HolidayCustomRepositoryImpl.java:33-41 | the projection: id, localName, name, the owner's name, fixed, global, launchYear and date of the row |
| HolidayQuery.PagesAdjacent | src/main/java/com/holidaykeeply/domain/infrastructure/repository/HolidayCustomRepositoryImpl.java:47 | `getOffset()`: page 0 starts at row 0 and page n + 1 starts where page n's `pageSize` rows end |
| HolidayQuery.PageOf | src/main/java/com/holidaykeeply/domain/infrastructure/repository/HolidayCustomRepositoryImpl.java:58 | `new PageImpl(content, pageable, total)`: the content and pageable as given; the total as given, except that a non-empty page reaching past it reports offset + content size |
| HolidayQuery.Ordered | src/main/java/com/holidaykeeply/domain/infrastructure/repository/HolidayCustomRepositoryImpl.java:42-46 | the matching rows newest first: a permutation of the selection, copies included |
| HolidayQuery.PageRows | src/main/java/com/holidaykeeply/domain/infrastructure/repository/HolidayCustomRepositoryImpl.java:42-49 | the page is the sorted matching rows from `pageable.getOffset()` on, at most `pageSize` of them, each with an owner |
| HolidayQuery.FindHolidaysByFilters | src/main/java/com/holidaykeeply/domain/infrastructure/repository/HolidayCustomRepositoryImpl.java:28-59 | at most `pageSize` items, the views of the page rows in order; the pageable is passed through; the total never exceeds the number of stored holidays, is that number whenever the page is empty or ends within the table, and otherwise covers at least the rows up to the page's end |
| HolidayQuery.ContentFromMatchingRows | src/main/java/com/holidaykeeply/domain/infrastructure/repository/HolidayCustomRepositoryImpl.java:32-49 | every returned item is the view of a stored row that matches the condition |
| HolidayQuery.ContentSatisfiesCondition | src/main/java/com/holidaykeeply/domain/infrastructure/repository/HolidayCustomRepositoryImpl.java:43-45 | every returned item satisfies the date predicate and the name predicate |
| HolidayQuery.BothBoundsInclusive | src/main/java/com/holidaykeeply/domain/infrastructure/repository/HolidayCustomRepositoryImpl.java:66-67 | with both bounds, every item has start <= date <= end, inclusive at both ends |
| HolidayQuery.StartBoundOnly | src/main/java/com/holidaykeeply/domain/infrastructure/repository/HolidayCustomRepositoryImpl.java:68-69 | with only a start, every item has date >= start |
| HolidayQuery.EndBoundOnly | src/main/java/com/holidaykeeply/domain/infrastructure/repository/HolidayCustomRepositoryImpl.java:70-71 | with only an end, every item has date <= end |
| HolidayQuery.NoBoundNoDateFilter | src/main/java/com/holidaykeeply/domain/infrastructure/repository/HolidayCustomRepositoryImpl.java:72-73 | without bounds the date never decides whether a row matches |
| HolidayQuery.NameFilter | src/main/java/com/holidaykeeply/domain/infrastructure/repository/HolidayCustomRepositoryImpl.java:61-63 | a null name applies no filter; a non-null name keeps exactly the rows whose owner has that name |
| HolidayQuery.SelectionComplete | src/main/java/com/holidaykeeply/domain/infrastructure/repository/HolidayCustomRepositoryImpl.java:42-46 | every stored matching row is in the sorted result |
| HolidayQuery.ContentNewestFirst | src/main/java/com/holidaykeeply/domain/infrastructure/repository/HolidayCustomRepositoryImpl.java:46 | the returned items are in descending date order |
| HolidayQuery.TotalIgnoresCondition | src/main/java/com/holidaykeeply/domain/infrastructure/repository/HolidayCustomRepositoryImpl.java:51-58 | for a page that ends within the table the total is the number of stored holidays, whatever the condition |
| HolidayQuery.ShortPageCorrectsTotal | src/main/java/com/holidaykeeply/domain/infrastructure/repository/HolidayCustomRepositoryImpl.java:51-58 | a German and a Japanese holiday searched for Germany on a page of 10 give one item and a total of 1, not 2 |
| HolidayQuery.TotalCountsUnmatchedRows | src/main/java/com/holidaykeeply/domain/infrastructure/repository/HolidayCustomRepositoryImpl.java:51-58 | a store holding one Japanese holiday, searched for Germany, returns no item yet a total of 1 |
| HolidayQuery.GermanUnityDay | src/test/java/com/holidaykeeply/domain/service/HolidayServiceTest.java:36-63 | German Unity Day 2025 searched over 2025 for Germany, page 0 of size 10, comes back as the single item, field for field, with a total of 1 |
| Repositories.FindByCountryCode | src/main/java/com/holidaykeeply/domain/infrastructure/repository/CountryRepository.java:10 | a stored country with exactly that code, or none exactly when no stored country has it |
| Repositories.UniqueCodeFindsThatCountry | src/main/java/com/holidaykeeply/domain/infrastructure/repository/CountryRepository.java:10 | when no two stored countries share a code, the lookup returns the one country with that code |
| Repositories.ExistsByCountryCode | src/main/java/com/holidaykeeply/domain/infrastructure/repository/CountryRepository.java:11 | true exactly when some stored country has exactly that code |
| Repositories.ExistsByName | src/main/java/com/holidaykeeply/domain/infrastructure/repository/CountryRepository.java:12 | true exactly when some stored country has exactly that name |
| Repositories.CountryRepository.constructor | src/main/java/com/holidaykeeply/domain/infrastructure/repository/CountryRepository.java:9 | the store starts empty |
| Repositories.CountryRepository.SaveAll | src/main/java/com/holidaykeeply/domain/service/CountryService.java:31-35 | the countries are stored after the existing ones and the same list is returned |
| Repositories.WithoutDateAndCountry | src/main/java/com/holidaykeeply/domain/infrastructure/repository/HolidayRepository.java:13 | the remaining rows are exactly the rows whose date or owner differs, each with its full multiplicity |
| Repositories.DeleteWithoutMatch | src/main/java/com/holidaykeeply/domain/service/HolidayService.java:35-37 | deleting when no row matches leaves the store unchanged |
| Repositories.DeleteKeepsOrder | src/main/java/com/holidaykeeply/domain/service/HolidayService.java:35-37 | deletion distributes over concatenation, so the remaining rows keep their order |
| Repositories.DeleteMatchesWholeDate | src/main/java/com/holidaykeeply/domain/infrastructure/repository/HolidayRepository.java:13 | a row of the same country and year but another day is kept: the full date must match |
| Repositories.HolidayRepository.constructor | src/main/java/com/holidaykeeply/domain/infrastructure/repository/HolidayRepository.java:12 | the store starts empty |
| Repositories.HolidayRepository.SaveAll | src/main/java/com/holidaykeeply/domain/service/HolidayService.java:46 | the holidays' current states are appended after the existing rows; the same list is returned |
| Repositories.HolidayRepository.DeleteByDateAndCountry | src/main/java/com/holidaykeeply/domain/infrastructure/repository/HolidayRepository.java:13 | the store becomes `WithoutDateAndCountry` of its old rows |
| Repositories.HolidayRepository.FindHolidaysByFilters | src/main/java/com/holidaykeeply/domain/infrastructure/repository/HolidayCustomRepository.java:10-12 | the custom implementation's search over the current rows: every item is the view of a stored matching row and the total is at most the number of rows |
| CountryService.Count | src/main/java/com/holidaykeeply/domain/service/CountryService.java:21-24 | the number of stored countries; 0 exactly when the store is empty; a read |
| CountryService.FindByCountryCode | src/main/java/com/holidaykeeply/domain/service/CountryService.java:26-29 | a stored country with exactly that code; NoSuchElementException exactly when no stored country has it; a read |
| CountryService.SaveAll | src/main/java/com/holidaykeeply/domain/service/CountryService.java:31-35 | appends the countries, returns the same list (same length) and raises the count by its length |
| CountryService.LookupIsCaseSensitive | src/test/java/com/holidaykeeply/global/common/validator/ExistsCountryCodeValidatorTest.java:125-138 | with "KR" stored, "KR" is found and "kr" fails with NoSuchElementException |
| CountryService.SavedCountriesAreFound | src/main/java/com/holidaykeeply/domain/service/CountryService.java:27-35 | after saveAll a code is found exactly when it was stored before or is among the saved countries |
| HolidayService.GetHolidays | src/main/java/com/holidaykeeply/domain/service/HolidayService.java:28-33 | the repository's search result, unchanged: at most `pageSize` items and a total of at most the stored rows |
| HolidayService.DeleteByDateAndCountry | src/main/java/com/holidaykeeply/domain/service/HolidayService.java:35-37 | removes exactly the rows with that full date and that owner; all other rows remain in order |
| HolidayService.AddCountryToEach | src/main/java/com/holidaykeeply/domain/service/HolidayService.java:45 | the forEach: on completion every holiday has settled to `Reconcile` of its old state; on a throw the DateTimeException is reported, the holidays before the rejected one have settled, the rejected one has its owner set and its date kept, and the later ones are untouched |
| HolidayService.AllAccepted | src/main/java/com/holidaykeeply/domain/service/HolidayService.java:45 | holidays that each settled together hold what `ReconcileAll` computes |
| HolidayService.RejectionFails | src/main/java/com/holidaykeeply/domain/service/HolidayService.java:45 | one rejected holiday makes the whole list fail with DateTimeException |
| HolidayService.UpsertAll | src/main/java/com/holidaykeeply/domain/service/HolidayService.java:39-48 | an unknown code fails with NoSuchElementException and touches nothing; otherwise the outcome is `ReconcileAll` of the holidays' old states; on success the holidays hold those states and are appended after the existing rows (no pre-delete, so repeats duplicate); on failure nothing is saved |
| HolidayWebClient.Replace | src/main/java/com/holidaykeeply/domain/infrastructure/web/HolidayWebClient.java:27-29 | `String.replace`: a replacement of the target's length keeps the string's length |
| HolidayWebClient.ReplaceWithoutOccurrence | src/main/java/com/holidaykeeply/domain/infrastructure/web/HolidayWebClient.java:27-29 | a string without the target is unchanged by the replacement |
| HolidayWebClient.ReplaceSkipsFreePrefix | src/main/java/com/holidaykeeply/domain/infrastructure/web/HolidayWebClient.java:27-29 | a prefix that cannot start the target is copied unchanged |
| HolidayWebClient.ReplaceAtFront | src/main/java/com/holidaykeeply/domain/infrastructure/web/HolidayWebClient.java:27-29 | a leading occurrence is replaced and the scan continues after it |
| HolidayWebClient.Digits | src/main/java/com/holidaykeeply/domain/infrastructure/web/HolidayWebClient.java:28 | a non-empty string of decimal digits, a single digit exactly below 10, with a leading '0' only for 0 itself |
| HolidayWebClient.DigitsRoundTrip | src/main/java/com/holidaykeeply/domain/infrastructure/web/HolidayWebClient.java:28 | the digits, read most significant first, are the number's value |
| HolidayWebClient.Decimal | src/main/java/com/holidaykeeply/domain/infrastructure/web/HolidayWebClient.java:28 | `String.valueOf(int)`: the digits of the magnitude, with a leading '-' exactly for negative years |
| HolidayWebClient.DecimalRoundTrip | src/main/java/com/holidaykeeply/domain/infrastructure/web/HolidayWebClient.java:28 | reading the numeral back, sign included, gives the year |
| HolidayWebClient.DigitsInjective | src/main/java/com/holidaykeeply/domain/infrastructure/web/HolidayWebClient.java:28 | different numbers have different digit strings |
| HolidayWebClient.DecimalInjective | src/main/java/com/holidaykeeply/domain/infrastructure/web/HolidayWebClient.java:28 | different years give different URL parts |
| HolidayWebClient.BuildUrl | src/main/java/com/holidaykeeply/domain/infrastructure/web/HolidayWebClient.java:27-29 | a template with neither placeholder is returned unchanged |
| HolidayWebClient.BuildUrlShape | src/main/java/com/holidaykeeply/domain/infrastructure/web/HolidayWebClient.java:27-29 | a template with `{year}` before `{countryCode}` and no other braces becomes the path with the decimal year and the code in their places |
| HolidayWebClient.YearSlashCode | src/main/java/com/holidaykeeply/domain/infrastructure/web/HolidayWebClient.java:27-29 | the configured shape `prefix{year}/{countryCode}` becomes `prefix<year>/<code>` |
| HolidayWebClient.YearDigits2025 | src/main/java/com/holidaykeeply/domain/infrastructure/web/HolidayWebClient.java:28 | `String.valueOf(2025)` is "2025" |
| HolidayWebClient.ConfiguredPathExample | src/test/java/com/holidaykeeply/domain/infrastructure/web/HolidayWebClientTest.java:81-83 | `/api/v3/PublicHolidays/{year}/{countryCode}` with 2025 and "KR" gives `/api/v3/PublicHolidays/2025/KR` |
| HolidayWebClient.MapErrors | src/main/java/com/holidaykeeply/domain/infrastructure/web/HolidayWebClient.java:34-39 | a body comes through unchanged; an HTTP-status error and any other error both become BusinessException(EXTERNAL_API_ERROR) |
| HolidayWebClient.DecodedRow | src/main/java/com/holidaykeeply/domain/infrastructure/web/HolidayWebClient.java:34 | a decoded holiday has no id and no owner and the received date |
| HolidayWebClient.DecodedRows | src/main/java/com/holidaykeeply/domain/infrastructure/web/HolidayWebClient.java:34-35 | one decoded holiday per element, in order |
| HolidayWebClient.Decode | src/main/java/com/holidaykeeply/domain/infrastructure/web/HolidayWebClient.java:34-35 | one new Holiday object per element, in order, each holding the decoded state |
| HolidayWebClient.FetchResult | src/main/java/com/holidaykeeply/domain/infrastructure/web/HolidayWebClient.java:27-39 | succeeds exactly when the exchange at the built URL returns a body, with that body's elements; every failure is EXTERNAL_API_ERROR |
| HolidayWebClient.FetchHolidays | src/main/java/com/holidaykeeply/domain/infrastructure/web/HolidayWebClient.java:25-40 | succeeds exactly when the exchange at the built URL returns a body; then the holidays are new objects holding the received elements in order and unmodified; otherwise EXTERNAL_API_ERROR |
| HolidayWebClient.EmptyBodyIsEmptyList | src/test/java/com/holidaykeeply/domain/infrastructure/web/HolidayWebClientTest.java:133-152 | an empty body yields an empty list, not an error |
| HolidayInfoService.GetHolidays | src/main/java/com/holidaykeeply/api/service/HolidayInfoService.java:31-35 | pure delegation: the holiday service's result, which is the repository search |
| HolidayInfoService.DeleteByDateAndCountry | src/main/java/com/holidaykeeply/api/service/HolidayInfoService.java:37-42 | the argument is resolved as a country code; unknown, it fails with NoSuchElementException and deletes nothing; otherwise it deletes exactly that date for that country |
| HolidayInfoService.UpsertResult | src/main/java/com/holidaykeeply/api/service/HolidayInfoService.java:44-50 | a failed fetch for `year.getYear()` gives EXTERNAL_API_ERROR; an unknown code gives NoSuchElementException; otherwise success exactly when no fetched holiday is 29 February while the year is not leap, else DateTimeException; a success holds, for each fetched holiday in order, its decoded row moved to the year with its month and day and owned by the stored country |
| HolidayInfoService.UpsertedRowsBelong | src/main/java/com/holidaykeeply/api/service/HolidayInfoService.java:47-48 | every appended row is new (no id), owned by a stored country with the requested code, and dated in the requested year |
| HolidayInfoService.UpsertHoliday | src/main/java/com/holidaykeeply/api/service/HolidayInfoService.java:44-50 | fetches for `year.getYear()` and the code, then runs upsertAll with the same year and code; the outcome is `UpsertResult`'s; on success its rows are appended; on failure nothing is written |
| HolidayInfoService.CountryCodes | src/main/java/com/holidaykeeply/api/service/HolidayInfoService.java:55 | each country's own code, in order |
| HolidayInfoService.YearTasks | src/main/java/com/holidaykeeply/api/service/HolidayInfoService.java:68-72 | one task per year for one country, in the order of the years |
| HolidayInfoService.Tasks | src/main/java/com/holidaykeeply/api/service/HolidayInfoService.java:67-72 | exactly \|countries\| × \|years\| tasks |
| HolidayInfoService.RowStart | src/main/java/com/holidaykeeply/api/service/HolidayInfoService.java:67-72 | country i's block starts at i × \|years\| |
| HolidayInfoService.EveryPairHasATask | src/main/java/com/holidaykeeply/api/service/HolidayInfoService.java:67-72 | every (country, year) pair has its task, at position i × \|years\| + j, with January 1 of that year (via `TaskResult`) and the country's own code |
| HolidayInfoService.Range | src/main/java/com/holidaykeeply/api/service/HolidayInfoService.java:54 | `Flux.range(start, count)`: count consecutive integers from start |
| HolidayInfoService.InitYears | src/main/java/com/holidaykeeply/api/service/HolidayInfoService.java:54 | six years, 2020 + k at position k |
| HolidayInfoService.InitYearsAre2020To2025 | src/main/java/com/holidaykeeply/api/service/HolidayInfoService.java:54 | the bootstrap years are 2020 to 2025 |
| HolidayInfoService.TaskYearsAreGivenYears | src/main/java/com/holidaykeeply/api/service/HolidayInfoService.java:67-72 | every task is for one of the given years and one of the given codes |
| HolidayInfoService.InitializeTaskCount | src/main/java/com/holidaykeeply/api/service/HolidayInfoService.java:52-59 | initializeHolidays issues 6 × \|countries\| tasks, each for a year from 2020 to 2025 whose January 1 is a valid date |
| HolidayInfoService.TaskResult | src/main/java/com/holidaykeeply/api/service/HolidayInfoService.java:55 | `LocalDate.of(year, 1, 1)` throws DateTimeException exactly for a year out of range; otherwise the task is the upsert for January 1 of its year and its code |
| HolidayInfoService.Results | src/main/java/com/holidaykeeply/api/service/HolidayInfoService.java:53-57 | the result of each task, in task order |
| HolidayInfoService.Contribution | src/main/java/com/holidaykeeply/api/service/HolidayInfoService.java:47-49 | a failed task writes nothing |
| HolidayInfoService.Written | src/main/java/com/holidaykeeply/api/service/HolidayInfoService.java:53-58 | the rows the tasks leave behind: some rows only when some task succeeded with a non-empty list |
| HolidayInfoService.Aggregate | src/main/java/com/holidaykeeply/api/service/HolidayInfoService.java:53-58 | the `.then()` over the fan-out: completion exactly when every task succeeded |
| HolidayInfoService.RunOneMore | src/main/java/com/holidaykeeply/api/service/HolidayInfoService.java:53-58 | one more task: its rows follow the earlier ones, and its failure decides the aggregate only if no earlier task failed |
| HolidayInfoService.AggregateIsFirstFailure | src/main/java/com/holidaykeeply/api/service/HolidayInfoService.java:53-58 | the fan-out completes exactly when every task succeeds; otherwise it fails with the error of the first failing task |
| HolidayInfoService.OneFailureFailsTheFanOut | src/main/java/com/holidaykeeply/api/service/HolidayInfoService.java:67-74 | any single failing task makes the whole fan-out fail |
| HolidayInfoService.WrittenIsEverySuccess | src/main/java/com/holidaykeeply/api/service/HolidayInfoService.java:53-58 | every successful task's rows are written, whatever the other tasks do |
| HolidayInfoService.WrittenComesFromSomeResult | src/main/java/com/holidaykeeply/api/service/HolidayInfoService.java:53-58 | every written row comes from one successful task |
| HolidayInfoService.WrittenRowsMatchTasks | src/main/java/com/holidaykeeply/api/service/HolidayInfoService.java:67-72 | every written row is new, owned by a stored country, and has the code and year of one of the tasks |
| HolidayInfoService.RunTask | src/main/java/com/holidaykeeply/api/service/HolidayInfoService.java:55 | `upsertHoliday(LocalDate.of(year, 1, 1), code)`: the task's result, and its rows appended |
| HolidayInfoService.RunTasks | src/main/java/com/holidaykeeply/api/service/HolidayInfoService.java:53-58 | runs every task in order; the store gains the rows of every successful task in task order; the outcome is the aggregate |
| HolidayInfoService.InitializeHolidays | src/main/java/com/holidaykeeply/api/service/HolidayInfoService.java:52-59 | the fan-out over the given countries × 2020 to 2025 |
| HolidayInfoService.SyncHolidaysForYears | src/main/java/com/holidaykeeply/api/service/HolidayInfoService.java:64-75 | the fan-out over the given countries × the given years |
| CountryInfoService.InitializeCountries | src/main/java/com/holidaykeeply/api/service/CountryInfoService.java:26-29 | a provider error comes back unchanged and nothing is saved; otherwise saveAll runs once with exactly the fetched list (an empty list included), which is appended and returned |
| DataInitializer.ShouldInitialize | src/main/java/com/holidaykeeply/global/runner/DataInitializer.java:30 | initialise exactly when the count is present and equal to 0 |
| DataInitializer.SkippedUnlessZero | src/test/java/com/holidaykeeply/global/runner/DataInitializerTest.java:55-83 | an absent count and a positive count both skip; a count of 0 initialises |
| DataInitializer.Run | src/main/java/com/holidaykeeply/global/runner/DataInitializer.java:27-41 | a non-empty store: nothing changes; empty store and provider error: nothing changes and initializeHolidays is not called; empty store and success: the store holds exactly the fetched countries and initializeHolidays runs over exactly that list; no error escapes |
| DataInitializer.EveryTaskCountryIsStored | src/main/java/com/holidaykeeply/global/runner/DataInitializer.java:33 | on a first run every task's code is found among the just-saved countries, so no task fails with NoSuchElementException |
| Scheduler.SyncYears | src/main/java/com/holidaykeeply/global/scheduler/HolidayDataSyncScheduler.java:39-48 | the years are exactly [previous year, current year], in that order; DateTimeException only when the previous year is out of range |
| Scheduler.SyncsPreviousAndCurrentYear | src/test/java/com/holidaykeeply/global/scheduler/HolidayDataSyncSchedulerTest.java:65-82 | any date after the first representable year re-syncs its previous and its own year |
| Scheduler.SyncOnJanuarySecond | src/main/java/com/holidaykeeply/global/scheduler/HolidayDataSyncScheduler.java:34-48 | the job on 2 January 2026 re-syncs 2025 and 2026 |
| Scheduler.TwoTasksPerCountry | src/main/java/com/holidaykeeply/global/scheduler/HolidayDataSyncScheduler.java:45-48 | the sync issues 2 × \|countries\| tasks, each for the previous or the current year |
| Scheduler.SyncHolidayData | src/main/java/com/holidaykeeply/global/scheduler/HolidayDataSyncScheduler.java:35-60 | syncHolidaysForYears runs once over every stored country and the two years; a failure to compute the years writes nothing; no error escapes |
| Validators.DateRangeIsValid | src/main/java/com/holidaykeeply/global/common/validator/DateRangeValidator.java:11-19 | valid exactly when a bound is null or start <= end, and that order is the order on the time line |
| Validators.RejectedRangesAreEmpty | src/main/java/com/holidaykeeply/global/common/validator/DateRangeValidator.java:15-18 | a valid range with both bounds contains its start; an invalid range contains no date |
| Validators.SameDayIsValid | src/test/java/com/holidaykeeply/global/common/validator/DateRangeValidatorTest.java:46-61 | start == end is valid |
| Validators.LaterStartIsInvalid | src/test/java/com/holidaykeeply/global/common/validator/DateRangeValidatorTest.java:63-80 | a start after the end is invalid |
| Validators.AcrossYearBoundary | src/test/java/com/holidaykeeply/global/common/validator/DateRangeValidatorTest.java:136-152 | 2024-12-31 to 2025-01-01 is valid, and the reverse is not |
| Validators.CountryCodeExists | src/main/java/com/holidaykeeply/global/common/validator/ExistsCountryCodeValidator.java:18-24 | valid exactly when the value is non-null and some stored country has exactly that code; a read |
| Validators.CountryNameExists | src/main/java/com/holidaykeeply/global/common/validator/ExistsCountryNameValidator.java:18-21 | valid exactly when the value is non-null and some stored country has exactly that name; a read |
| Validators.CodeMatchIsCaseSensitive | src/test/java/com/holidaykeeply/global/common/validator/ExistsCountryCodeValidatorTest.java:125-138 | with "KR" stored, "KR" is valid while "kr" and null are not |
| Validators.BlankCodeIsLookedUpAsIs | src/test/java/com/holidaykeeply/global/common/validator/ExistsCountryCodeValidatorTest.java:74-102 | empty and blank codes are looked up untrimmed and are invalid when absent |
| Validators.NameMatchIsVerbatim | src/test/java/com/holidaykeeply/global/common/validator/ExistsCountryNameValidatorTest.java:125-153 | "Côte d'Ivoire" matches only verbatim: no accent stripping, no case folding; "" and null are invalid |
| Responses.OkResponse | src/main/java/com/holidaykeeply/global/common/response/Response.java:16-18 | success, status OK, the given data, no error |
| Responses.CreatedResponse | src/main/java/com/holidaykeeply/global/common/response/Response.java:20-22 | success, status CREATED, the given data, no error |
| Responses.FailResponse | src/main/java/com/holidaykeeply/global/common/response/Response.java:24-26 | no success, no data, the given error, and the status of the error's code (4xx or 5xx) |
| Responses.StatusClassMatchesSuccess | src/main/java/com/holidaykeeply/global/common/response/Response.java:16-26 | in any envelope the constructors build, success holds exactly when the status is 2xx |
| Responses.FailureIsFailResponse | src/main/java/com/holidaykeeply/global/common/response/Response.java:24-26 | every well-formed failed envelope is `fail` of its own error |
| Errors.HttpStatus.Value | src/main/java/com/holidaykeeply/global/error/ErrorCode.java:11-14 | every status the application uses is an HTTP status value (200 to 599) |
| Errors.ErrorCodeTable | src/main/java/com/holidaykeeply/global/error/ErrorCode.java:11-14 | NOT_VALID_ERROR is 400/"A-001", EXTERNAL_API_ERROR 503/"A-002", EXTERNAL_API_TIMEOUT 408/"A-003", EXTERNAL_API_NOT_FOUND 404/"A-004" |
| Errors.CodesAreDistinct | src/main/java/com/holidaykeeply/global/error/ErrorCode.java:11-14 | no two entries share a code string |
| Errors.ToOutcome | src/main/java/com/holidaykeeply/api/service/HolidayInfoService.java:49 | `.then()`: a value becomes completion and an error stays the same error |

## Left out

- HTTP transport: the request chain, Netty timeouts and JSON decoding errors. A fetch is the exchange function of `HolidayApi`. UriBuilder's expansion of the already substituted URL adds nothing.
- Reactor concurrency: `subscribeOn`, `flatMap` interleaving and the thread pool. The asynchronous `subscribe()` of the scheduler is modelled as running to completion.
- HolidayInfoService.RunTasks: `Flux.flatMap` runs the upserts concurrently and cancels the outstanding ones once one fails, so which rows a failing fan-out leaves behind depends on timing. The model runs the tasks one after another, runs every task even after a failure, and reports the first failure in task order; `Written` and `Aggregate` describe that sequential run, not every interleaving.
- The `@Scheduled` cron trigger and `LocalDate.now()`: "today" is a parameter of `Scheduler.SyncHolidayData`.
- CountryWebClient, CountryApiProvider and CountryDbProvider are thin wrappers. The external country list is the `fetched` input of `CountryInfoService.InitializeCountries` and `DataInitializer.Run`. The database provider is the stored country sequence, whose read cannot fail here.
- JPA internals: identity generation, merge by id, cascade and orphan removal of `Country.holidays`, `BaseTimeEntity` timestamps. Stored holidays are new rows without an id.
- The database's order among rows with equal dates. `HolidayQuery.SortByDateDesc` fixes one order (a permutation, newest first); the database may order ties differently.
- Repositories.FindByCountryCode: with two stored countries sharing a code it returns the first one, where Spring Data's `Optional` query throws IncorrectResultSizeDataAccessException. `Country.countryCode` has no unique constraint; the model assumes the provider's codes are distinct and states the unique-code case in `UniqueCodeFindsThatCountry`.
- `Pageable` is a `PageRequest` (page number and size); `Pageable.unpaged()` is not modelled.
- `String.replace` with an empty target. The two targets are the fixed placeholders, never empty.
- A null `counties` or `types` list is the empty sequence.
- DataInitializer.Run: a null count arises only when `count()` completes empty, which the store-backed service never does. `ShouldInitialize` covers that case on its own.
- Logging, configuration binding (NagerApiProperties), the controller, Swagger, GlobalExceptionHandler, and the bean-validation annotations that bind the validators.
