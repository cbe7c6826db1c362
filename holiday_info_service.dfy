/**
 * HolidayInfoService: the application-level operations. upsertHoliday fetches one
 * country's holidays for one year and hands them to upsertAll; initializeHolidays and
 * syncHolidaysForYears fan out over every (country, year) pair, here one task after
 * another with every task run and the first failure reported.
 */
module HolidayInfoService {
  import opened Options
  import opened Errors
  import opened Dates
  import opened Entity
  import opened Repositories
  import opened HolidayWebClient
  import HolidayQuery
  import CountryService
  import HolidayService

  /** getHolidays: delegated unchanged. */
  function GetHolidays(repo: HolidayRepository, cond: HolidayQuery.SearchCondition, pageable: HolidayQuery.Pageable): (r: HolidayQuery.Page)
    reads repo
    ensures r == HolidayService.GetHolidays(repo, cond, pageable)
    ensures r == HolidayQuery.FindHolidaysByFilters(repo.rows, cond, pageable)
  {
    HolidayService.GetHolidays(repo, cond, pageable)
  }

  /**
   * deleteByDateAndCountry(year, countryName): the argument is resolved as a country
   * CODE; an unknown one fails with NoSuchElementException and deletes nothing.
   */
  method DeleteByDateAndCountry(holidayRepo: HolidayRepository, countryRepo: CountryRepository,
                                date: LocalDate, countryName: string) returns (r: Outcome)
    modifies holidayRepo
    ensures CountryService.FindByCountryCode(countryRepo, countryName).Failure? ==>
      r == Fail(NoSuchElement) && holidayRepo.rows == old(holidayRepo.rows)
    ensures CountryService.FindByCountryCode(countryRepo, countryName).Success? ==>
      r == Pass &&
      holidayRepo.rows == WithoutDateAndCountry(old(holidayRepo.rows), date,
                                                CountryService.FindByCountryCode(countryRepo, countryName).value)
  {
    var found := CountryService.FindByCountryCode(countryRepo, countryName);
    if found.Failure? {
      return Fail(found.error);
    }
    HolidayService.DeleteByDateAndCountry(holidayRepo, date, found.value);
    r := Pass;
  }

  // ---- upsertHoliday ----

  /**
   * What upsertHoliday(year, code) appends: the holidays fetched for year.getYear()
   * and the code, reconciled to that year and to the stored country with that code.
   */
  function UpsertResult(api: HolidayApi, countries: seq<Country>, year: LocalDate, countryCode: string): (r: Result<seq<HolidayRow>>)
    ensures FetchResult(api, year.year, countryCode).Failure? ==> r == Failure(Business(ExternalApiError))
    ensures FetchResult(api, year.year, countryCode).Success? && FindByCountryCode(countries, countryCode).None? ==>
      r == Failure(NoSuchElement)
    ensures var f, c := FetchResult(api, year.year, countryCode), FindByCountryCode(countries, countryCode);
      f.Success? && c.Some? ==>
        && (r.Success? <==> forall j :: j in f.value ==> !(j.date.month == 2 && j.date.day == 29 && !IsLeapYear(year.year)))
        && (r.Failure? ==> r.error == DateTime)
        && (r.Success? ==> |r.value| == |f.value|)
        && (r.Success? ==> forall i :: 0 <= i < |f.value| ==>
              r.value[i] == DecodedRow(f.value[i]).(date := Date(year.year, f.value[i].date.month, f.value[i].date.day),
                                                    country := c.value))
  {
    match FetchResult(api, year.year, countryCode)
    case Failure(e) => Failure(e)
    case Success(js) =>
      match FindByCountryCode(countries, countryCode)
      case None => Failure(NoSuchElement)
      case Some(c) => ReconcileAll(DecodedRows(js), year, c)
  }

  /**
   * Every appended holiday is a new row (no id) owned by the stored country with the
   * requested code and dated in the requested year.
   */
  lemma UpsertedRowsBelong(api: HolidayApi, countries: seq<Country>, year: LocalDate, countryCode: string)
    requires UpsertResult(api, countries, year, countryCode).Success?
    ensures forall h :: h in UpsertResult(api, countries, year, countryCode).value ==>
      h.country != null && h.country in countries && h.country.countryCode == countryCode &&
      h.date.year == year.year && h.id.None?
  {
    var js := FetchResult(api, year.year, countryCode).value;
    var c := FindByCountryCode(countries, countryCode).value;
    var rows := UpsertResult(api, countries, year, countryCode).value;
    forall h | h in rows
      ensures h.country == c && h.date.year == year.year && h.id.None?
    {
      var i :| 0 <= i < |rows| && rows[i] == h;
      assert h == Reconcile(DecodedRows(js)[i], year, c).value;
    }
  }

  /** upsertHoliday: fetch, then upsertAll with the same year and code; a failed fetch writes nothing. */
  method UpsertHoliday(api: HolidayApi, holidayRepo: HolidayRepository, countryRepo: CountryRepository,
                       year: LocalDate, countryCode: string) returns (r: Outcome)
    modifies holidayRepo
    ensures r == ToOutcome(UpsertResult(api, countryRepo.countries, year, countryCode))
    ensures r.Pass? ==> holidayRepo.rows == old(holidayRepo.rows) + UpsertResult(api, countryRepo.countries, year, countryCode).value
    ensures r.Fail? ==> holidayRepo.rows == old(holidayRepo.rows)
  {
    var fetched := FetchHolidays(api, year.year, countryCode);
    if fetched.Failure? {
      return Fail(fetched.error);
    }
    r := HolidayService.UpsertAll(holidayRepo, countryRepo, fetched.value, year, countryCode);
  }

  // ---- The fan-out ----

  /** One (country, year) pair: upsertHoliday(LocalDate.of(year, 1, 1), countryCode). */
  datatype Task = Task(year: int, countryCode: string)

  function CountryCodes(countries: seq<Country>): (codes: seq<string>)
    ensures |codes| == |countries| && forall i :: 0 <= i < |countries| ==> codes[i] == countries[i].countryCode
  {
    if countries == [] then [] else [countries[0].countryCode] + CountryCodes(countries[1..])
  }

  /** The tasks of one country, in the order of the years. */
  function YearTasks(countryCode: string, years: seq<int>): (ts: seq<Task>)
    ensures |ts| == |years| && forall j :: 0 <= j < |years| ==> ts[j] == Task(years[j], countryCode)
  {
    if years == [] then [] else [Task(years[0], countryCode)] + YearTasks(countryCode, years[1..])
  }

  /** The tasks country by country, each country's block in the order of the years. */
  function Tasks(codes: seq<string>, years: seq<int>): (ts: seq<Task>)
    ensures |ts| == |codes| * |years|
  {
    if codes == [] then []
    else
      NextRow(|codes[1..]|, |years|);
      YearTasks(codes[0], years) + Tasks(codes[1..], years)
  }

  lemma NextRow(i: int, n: int)
    ensures (i + 1) * n == i * n + n
  {
  }

  /** Where country i's block of n tasks starts: i rows of n. */
  function RowStart(i: nat, n: nat): (k: nat)
    ensures k == i * n
  {
    if i == 0 then 0 else NextRow(i - 1, n); RowStart(i - 1, n) + n
  }

  /**
   * Every pair of a country and a year has its task: country i's task for year j is at
   * RowStart(i, |years|) + j, i.e. at i * |years| + j.
   */
  lemma {:induction false} EveryPairHasATask(codes: seq<string>, years: seq<int>, i: nat, j: nat)
    requires i < |codes| && j < |years|
    ensures RowStart(i, |years|) + j < |Tasks(codes, years)|
    ensures Tasks(codes, years)[RowStart(i, |years|) + j] == Task(years[j], codes[i])
  {
    var head, rest := YearTasks(codes[0], years), Tasks(codes[1..], years);
    assert Tasks(codes, years) == head + rest;
    if i > 0 {
      EveryPairHasATask(codes[1..], years, i - 1, j);
      assert codes[1..][i - 1] == codes[i];
    }
  }

  lemma AppendAssoc<T>(a: seq<T>, b: seq<T>, c: seq<T>)
    ensures (a + b) + c == a + (b + c)
  {
  }

  /** Flux.range(start, count). */
  function Range(start: int, count: nat): (r: seq<int>)
    ensures |r| == count && forall i :: 0 <= i < count ==> r[i] == start + i
    decreases count
  {
    if count == 0 then [] else [start] + Range(start + 1, count - 1)
  }

  /** The bootstrap window: Flux.range(2020, 6). */
  function InitYears(): (ys: seq<int>)
    ensures |ys| == 6 && forall k :: 0 <= k < 6 ==> ys[k] == 2020 + k
  {
    Range(2020, 6)
  }

  lemma InitYearsAre2020To2025()
    ensures InitYears() == [2020, 2021, 2022, 2023, 2024, 2025]
  {
    var r := InitYears();
    assert r[0] == 2020 && r[1] == 2021 && r[2] == 2022 && r[3] == 2023 && r[4] == 2024 && r[5] == 2025;
  }

  /** Every task is for one of the given years and one of the given codes. */
  lemma {:induction false} TaskYearsAreGivenYears(codes: seq<string>, years: seq<int>)
    ensures forall t :: t in Tasks(codes, years) ==> t.year in years && t.countryCode in codes
  {
    if codes != [] {
      TaskYearsAreGivenYears(codes[1..], years);
      var head := YearTasks(codes[0], years);
      forall t | t in head ensures t.year in years && t.countryCode == codes[0] {
        var j :| 0 <= j < |head| && head[j] == t;
      }
      assert Tasks(codes, years) == head + Tasks(codes[1..], years);
    }
  }

  /** initializeHolidays issues six tasks per country, each on a valid January 1. */
  lemma InitializeTaskCount(countries: seq<Country>)
    ensures |Tasks(CountryCodes(countries), InitYears())| == 6 * |countries|
    ensures forall t :: t in Tasks(CountryCodes(countries), InitYears()) ==>
      2020 <= t.year <= 2025 && Of(t.year, 1, 1) == Success(Date(t.year, 1, 1))
  {
    TaskYearsAreGivenYears(CountryCodes(countries), InitYears());
  }

  /** What one task yields: LocalDate.of(year, 1, 1) may throw before the upsert. */
  function TaskResult(api: HolidayApi, countries: seq<Country>, t: Task): (r: Result<seq<HolidayRow>>)
    ensures !ValidYear(t.year) ==> r == Failure(DateTime)
    ensures ValidYear(t.year) ==> r == UpsertResult(api, countries, Date(t.year, 1, 1), t.countryCode)
  {
    match Of(t.year, 1, 1)
    case Failure(e) => Failure(e)
    case Success(jan1) => UpsertResult(api, countries, jan1, t.countryCode)
  }

  /** The result of each task, in task order. */
  function Results(api: HolidayApi, countries: seq<Country>, ts: seq<Task>): (rs: seq<Result<seq<HolidayRow>>>)
    ensures |rs| == |ts| && forall k :: 0 <= k < |ts| ==> rs[k] == TaskResult(api, countries, ts[k])
  {
    if ts == [] then [] else [TaskResult(api, countries, ts[0])] + Results(api, countries, ts[1..])
  }

  /** The rows one task appends: its rows when it succeeds, nothing when it fails. */
  function Contribution(res: Result<seq<HolidayRow>>): (hs: seq<HolidayRow>)
    ensures res.Failure? ==> hs == []
  {
    if res.Success? then res.value else []
  }

  /** The rows the tasks append, in task order. */
  function Written(rs: seq<Result<seq<HolidayRow>>>): (ws: seq<HolidayRow>)
    ensures ws != [] ==> exists k :: 0 <= k < |rs| && rs[k].Success? && rs[k].value != []
  {
    if rs == [] then [] else Written(rs[..|rs| - 1]) + Contribution(rs[|rs| - 1])
  }

  /** One more task: its rows follow the earlier ones, and its failure counts only if none came before. */
  lemma RunOneMore(rs: seq<Result<seq<HolidayRow>>>, i: int)
    requires 0 <= i < |rs|
    ensures Written(rs[..i + 1]) == Written(rs[..i]) + Contribution(rs[i])
    ensures Aggregate(rs[..i + 1]) == if Aggregate(rs[..i]).Fail? then Aggregate(rs[..i]) else ToOutcome(rs[i])
  {
    assert rs[..i + 1][..i] == rs[..i];
  }

  /** The combined signal: the first failure in task order, or completion when every task passed. */
  function Aggregate(rs: seq<Result<seq<HolidayRow>>>): (o: Outcome)
    ensures o.Pass? <==> forall k :: 0 <= k < |rs| ==> rs[k].Success?
  {
    if rs == [] then Pass
    else
      var a := Aggregate(rs[..|rs| - 1]);
      if a.Fail? then a else ToOutcome(rs[|rs| - 1])
  }

  /** Result k is a failure with e and every result before it is a success. */
  predicate FirstFailure(rs: seq<Result<seq<HolidayRow>>>, k: int, e: Error) {
    && 0 <= k < |rs|
    && rs[k] == Failure(e)
    && forall m :: 0 <= m < k ==> rs[m].Success?
  }

  /**
   * The fan-out fails exactly when some task fails, and then with the error of the
   * first failing task.
   */
  lemma {:induction false} AggregateIsFirstFailure(rs: seq<Result<seq<HolidayRow>>>)
    ensures Aggregate(rs).Pass? <==> forall k :: 0 <= k < |rs| ==> rs[k].Success?
    ensures Aggregate(rs).Fail? ==> exists k :: FirstFailure(rs, k, Aggregate(rs).error)
  {
    if rs != [] {
      var init := rs[..|rs| - 1];
      AggregateIsFirstFailure(init);
      assert forall k :: 0 <= k < |init| ==> init[k] == rs[k];
      var a := Aggregate(init);
      if a.Fail? {
        var k :| FirstFailure(init, k, a.error);
        assert FirstFailure(rs, k, a.error);
      } else if rs[|rs| - 1].Failure? {
        assert FirstFailure(rs, |rs| - 1, Aggregate(rs).error);
      }
    }
  }

  /** Any single failing task makes the whole fan-out fail. */
  lemma OneFailureFailsTheFanOut(rs: seq<Result<seq<HolidayRow>>>, k: int)
    requires 0 <= k < |rs| && rs[k].Failure?
    ensures Aggregate(rs).Fail?
  {
    AggregateIsFirstFailure(rs);
  }

  /** The task results do not depend on each other: every successful task contributes its rows. */
  lemma {:induction false} WrittenIsEverySuccess(rs: seq<Result<seq<HolidayRow>>>, k: int)
    requires 0 <= k < |rs| && rs[k].Success?
    ensures forall h :: h in rs[k].value ==> h in Written(rs)
  {
    var init := rs[..|rs| - 1];
    if k < |rs| - 1 {
      WrittenIsEverySuccess(init, k);
    }
  }

  /** One task: the date, then upsertHoliday. */
  method RunTask(api: HolidayApi, holidayRepo: HolidayRepository, countryRepo: CountryRepository, t: Task) returns (r: Outcome)
    modifies holidayRepo
    ensures r == ToOutcome(TaskResult(api, countryRepo.countries, t))
    ensures holidayRepo.rows == old(holidayRepo.rows) + Contribution(TaskResult(api, countryRepo.countries, t))
  {
    var jan1 := Of(t.year, 1, 1);
    if jan1.Failure? {
      return Fail(jan1.error);
    }
    r := UpsertHoliday(api, holidayRepo, countryRepo, jan1.value, t.countryCode);
  }

  /** One more task run: the store and the outcome still follow Written and Aggregate. */
  lemma RunOneStep(rs: seq<Result<seq<HolidayRow>>>, i: int, start: seq<HolidayRow>, before: seq<HolidayRow>, r: Outcome)
    requires 0 <= i < |rs|
    requires before == start + Written(rs[..i]) && r == Aggregate(rs[..i])
    ensures before + Contribution(rs[i]) == start + Written(rs[..i + 1])
    ensures (if r.Pass? then ToOutcome(rs[i]) else r) == Aggregate(rs[..i + 1])
  {
    RunOneMore(rs, i);
    AppendAssoc(start, Written(rs[..i]), Contribution(rs[i]));
  }

  /** Runs every task in order; each successful task's rows stay written whatever the others do. */
  method RunTasks(api: HolidayApi, holidayRepo: HolidayRepository, countryRepo: CountryRepository, ts: seq<Task>) returns (r: Outcome)
    modifies holidayRepo
    ensures holidayRepo.rows == old(holidayRepo.rows) + Written(Results(api, countryRepo.countries, ts))
    ensures r == Aggregate(Results(api, countryRepo.countries, ts))
  {
    ghost var rs := Results(api, countryRepo.countries, ts);
    r := Pass;
    var i := 0;
    while i < |ts|
      invariant 0 <= i <= |ts|
      invariant countryRepo.countries == old(countryRepo.countries)
      invariant holidayRepo.rows == old(holidayRepo.rows) + Written(rs[..i])
      invariant r == Aggregate(rs[..i])
    {
      ghost var before := holidayRepo.rows;
      var o := RunTask(api, holidayRepo, countryRepo, ts[i]);
      assert rs[i] == TaskResult(api, countryRepo.countries, ts[i]);
      RunOneStep(rs, i, old(holidayRepo.rows), before, r);
      if r.Pass? {
        r := o;
      }
      i := i + 1;
    }
    assert rs[..|ts|] == rs;
  }

  /** initializeHolidays(countries): every country for every year 2020 to 2025. */
  method InitializeHolidays(api: HolidayApi, holidayRepo: HolidayRepository, countryRepo: CountryRepository,
                            countries: seq<Country>) returns (r: Outcome)
    modifies holidayRepo
    ensures holidayRepo.rows == old(holidayRepo.rows) +
      Written(Results(api, countryRepo.countries, Tasks(CountryCodes(countries), InitYears())))
    ensures r == Aggregate(Results(api, countryRepo.countries, Tasks(CountryCodes(countries), InitYears())))
  {
    r := RunTasks(api, holidayRepo, countryRepo, Tasks(CountryCodes(countries), InitYears()));
  }

  /** syncHolidaysForYears(countries, years): every country for every given year. */
  method SyncHolidaysForYears(api: HolidayApi, holidayRepo: HolidayRepository, countryRepo: CountryRepository,
                              countries: seq<Country>, years: seq<int>) returns (r: Outcome)
    modifies holidayRepo
    ensures holidayRepo.rows == old(holidayRepo.rows) +
      Written(Results(api, countryRepo.countries, Tasks(CountryCodes(countries), years)))
    ensures r == Aggregate(Results(api, countryRepo.countries, Tasks(CountryCodes(countries), years)))
  {
    r := RunTasks(api, holidayRepo, countryRepo, Tasks(CountryCodes(countries), years));
  }

  /** Every written row comes from one successful result. */
  lemma {:induction false} WrittenComesFromSomeResult(rs: seq<Result<seq<HolidayRow>>>)
    ensures forall h :: h in Written(rs) ==> exists k :: 0 <= k < |rs| && rs[k].Success? && h in rs[k].value
  {
    if rs != [] {
      var init := rs[..|rs| - 1];
      WrittenComesFromSomeResult(init);
      forall h | h in Written(rs)
        ensures exists k :: 0 <= k < |rs| && rs[k].Success? && h in rs[k].value
      {
        if h in Written(init) {
          var k :| 0 <= k < |init| && init[k].Success? && h in init[k].value;
          assert init[k] == rs[k];
        } else {
          assert rs[|rs| - 1].Success? && h in rs[|rs| - 1].value;
        }
      }
    }
  }

  /**
   * Every written row is a new row owned by a stored country, and it belongs to one of
   * the tasks: that task's country code and year.
   */
  lemma WrittenRowsMatchTasks(api: HolidayApi, countries: seq<Country>, ts: seq<Task>)
    ensures forall h :: h in Written(Results(api, countries, ts)) ==>
      h.country != null && h.country in countries && h.id.None? &&
      exists t :: t in ts && h.country.countryCode == t.countryCode && h.date.year == t.year
  {
    var rs := Results(api, countries, ts);
    WrittenComesFromSomeResult(rs);
    forall h | h in Written(rs)
      ensures h.country != null && h.country in countries && h.id.None? &&
        exists t :: t in ts && h.country.countryCode == t.countryCode && h.date.year == t.year
    {
      var k :| 0 <= k < |rs| && rs[k].Success? && h in rs[k].value;
      var t := ts[k];
      assert rs[k] == TaskResult(api, countries, t);
      var jan1 := Of(t.year, 1, 1).value;
      UpsertedRowsBelong(api, countries, jan1, t.countryCode);
      assert h in UpsertResult(api, countries, jan1, t.countryCode).value;
    }
  }
}
