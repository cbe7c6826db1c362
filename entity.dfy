/**
 * The two entities: Country and Holiday. Only the fields that the core writes after
 * construction are mutable: Country.holidays, Holiday.date and Holiday.country.
 */
module Entity {
  import opened Options
  import opened Errors
  import opened Dates

  /** A country row; its id, code and name never change once created. */
  class Country {
    const id: Option<int>
    const countryCode: string
    const name: string
    var holidays: seq<Holiday>

    constructor (id: Option<int>, countryCode: string, name: string)
      ensures this.id == id && this.countryCode == countryCode && this.name == name
      ensures holidays == []
    {
      this.id := id;
      this.countryCode := countryCode;
      this.name := name;
      holidays := [];
    }

    /** Appends to the owned list; the holiday's own back-reference is left alone. */
    method AddHoliday(holiday: Holiday)
      modifies this
      ensures holidays == old(holidays) + [holiday]
      ensures |holidays| == |old(holidays)| + 1 && holidays[|holidays| - 1] == holiday
      ensures holiday.country == old(holiday.country)
    {
      holidays := holidays + [holiday];
    }
  }

  /** The state of one Holiday as a value: what a store row holds. */
  datatype HolidayRow = HolidayRow(
    id: Option<int>,
    name: string,
    localName: string,
    date: LocalDate,
    fixed: bool,
    global: bool,
    launchYear: Option<string>,
    counties: seq<string>,
    types: seq<string>,
    country: Country?)

  /** A holiday; `country` is null until the holiday is reconciled. */
  class Holiday {
    const id: Option<int>
    const name: string
    const localName: string
    var date: LocalDate
    const fixed: bool
    const global: bool
    const launchYear: Option<string>
    const counties: seq<string>
    const types: seq<string>
    var country: Country?

    constructor (id: Option<int>, name: string, localName: string, date: LocalDate, fixed: bool,
                 global: bool, launchYear: Option<string>, counties: seq<string>, types: seq<string>,
                 country: Country?)
      ensures Row() == HolidayRow(id, name, localName, date, fixed, global, launchYear, counties, types, country)
    {
      this.id := id;
      this.name := name;
      this.localName := localName;
      this.date := date;
      this.fixed := fixed;
      this.global := global;
      this.launchYear := launchYear;
      this.counties := counties;
      this.types := types;
      this.country := country;
    }

    function Row(): HolidayRow
      reads this
    {
      HolidayRow(id, name, localName, date, fixed, global, launchYear, counties, types, country)
    }

    /**
     * addCountry: the owner is assigned first, then the date is rebuilt in the year of
     * `year`; when that date does not exist the exception leaves the owner assigned and
     * the date as it was.
     */
    method AddCountry(year: LocalDate, country: Country) returns (r: Outcome)
      modifies this
      ensures this.country == country
      ensures r == ToOutcome(Reconcile(old(Row()), year, country))
      ensures r.Pass? ==> Row() == Reconcile(old(Row()), year, country).value
      ensures r.Fail? ==> date == old(date)
    {
      this.country := country;
      var moved := WithYear(date, year.year);
      if moved.Failure? {
        return Fail(moved.error);
      }
      date := moved.value;
      r := Pass;
    }
  }

  /** What addCountry does to a holiday's state. */
  function Reconcile(h: HolidayRow, year: LocalDate, c: Country): (r: Result<HolidayRow>)
    ensures r.Success? <==> !(h.date.month == 2 && h.date.day == 29 && !IsLeapYear(year.year))
    ensures r.Success? ==> r.value.country == c && r.value.date.year == year.year
    ensures r.Success? ==> r.value.date.month == h.date.month && r.value.date.day == h.date.day
    ensures r.Success? ==> r.value == h.(date := r.value.date, country := c)
    ensures r.Failure? ==> r.error == DateTime
  {
    match WithYear(h.date, year.year)
    case Success(d) => Success(h.(date := d, country := c))
    case Failure(e) => Failure(e)
  }

  /** Reconciling an already reconciled holiday with the same year and owner changes nothing. */
  lemma ReconcileIdempotent(h: HolidayRow, year: LocalDate, c: Country)
    requires Reconcile(h, year, c).Success?
    ensures Reconcile(Reconcile(h, year, c).value, year, c) == Reconcile(h, year, c)
  {
    WithYearIdempotent(h.date, year.year);
  }

  /** holidays.forEach(h -> h.addCountry(year, country)) on values: the first failure stops it. */
  function ReconcileAll(hs: seq<HolidayRow>, year: LocalDate, c: Country): (r: Result<seq<HolidayRow>>)
    ensures r.Success? <==> forall i :: 0 <= i < |hs| ==> Reconcile(hs[i], year, c).Success?
    ensures r.Success? ==> |r.value| == |hs|
    ensures r.Success? ==> forall i :: 0 <= i < |hs| ==> r.value[i] == Reconcile(hs[i], year, c).value
    ensures r.Failure? ==> r.error == DateTime
  {
    if hs == [] then Success([])
    else
      match Reconcile(hs[0], year, c)
      case Failure(e) => Failure(e)
      case Success(h) =>
        match ReconcileAll(hs[1..], year, c)
        case Failure(e) => Failure(e)
        case Success(rest) =>
          assert forall i :: 1 <= i < |hs| ==> hs[i] == hs[1..][i - 1];
          Success([h] + rest)
  }

  /** The position at which addCountry first throws, or the length when no holiday is rejected. */
  function FirstRejected(hs: seq<HolidayRow>, year: LocalDate, c: Country): (k: nat)
    ensures k <= |hs|
    ensures forall i :: 0 <= i < k ==> Reconcile(hs[i], year, c).Success?
    ensures k < |hs| ==> Reconcile(hs[k], year, c).Failure?
    ensures ReconcileAll(hs, year, c).Success? <==> k == |hs|
  {
    if hs == [] then 0
    else if Reconcile(hs[0], year, c).Failure? then 0
    else
      var k := 1 + FirstRejected(hs[1..], year, c);
      assert forall i :: 1 <= i < |hs| ==> hs[i] == hs[1..][i - 1];
      k
  }

  /** After a successful reconciliation every holiday has the owner and the year, and keeps its month and day. */
  lemma ReconciledRows(hs: seq<HolidayRow>, year: LocalDate, c: Country)
    requires ReconcileAll(hs, year, c).Success?
    ensures forall i :: 0 <= i < |hs| ==>
      var h := ReconcileAll(hs, year, c).value[i];
      h.country == c && h.date.year == year.year &&
      h.date.month == hs[i].date.month && h.date.day == hs[i].date.day
  {
  }

  /** Holidays already dated in the target year are never rejected and keep their dates. */
  lemma SameYearReconciles(hs: seq<HolidayRow>, year: LocalDate, c: Country)
    requires forall i :: 0 <= i < |hs| ==> hs[i].date.year == year.year
    ensures ReconcileAll(hs, year, c).Success?
    ensures forall i :: 0 <= i < |hs| ==> ReconcileAll(hs, year, c).value[i].date == hs[i].date
  {
    forall i | 0 <= i < |hs| ensures Reconcile(hs[i], year, c).Success? {
      WithSameYear(hs[i].date);
    }
  }

  /** The current state of a list of holidays, one row per element. */
  function RowsOf(hs: seq<Holiday>): (r: seq<HolidayRow>)
    reads hs
    ensures |r| == |hs| && forall i :: 0 <= i < |hs| ==> r[i] == hs[i].Row()
  {
    if hs == [] then [] else [hs[0].Row()] + RowsOf(hs[1..])
  }
}
