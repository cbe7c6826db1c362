/**
 * HolidayWebClient: the request URL built from the configured template, the uniform
 * mapping of every transport failure to EXTERNAL_API_ERROR, and the decoding of the
 * body into new Holiday objects. The HTTP exchange itself is a parameter.
 */
module HolidayWebClient {
  import opened Options
  import opened Errors
  import opened Dates
  import opened Entity

  // ---- String.replace ----

  /** String.replace(target, replacement): every occurrence, left to right, without overlap. */
  function Replace(s: string, target: string, replacement: string): (r: string)
    requires |target| > 0
    ensures |target| == |replacement| ==> |r| == |s|
    decreases |s|
  {
    if |s| < |target| then s
    else if s[..|target|] == target then
      replacement + Replace(s[|target|..], target, replacement)
    else
      var rest := Replace(s[1..], target, replacement);
      assert s == [s[0]] + s[1..];
      [s[0]] + rest
  }

  /** t occurs in s starting at index i. */
  predicate MatchAt(s: string, t: string, i: nat) {
    i + |t| <= |s| && s[i..i + |t|] == t
  }

  ghost predicate Occurs(s: string, t: string) {
    exists i: nat :: MatchAt(s, t, i)
  }

  /** A string without the target comes back unchanged. */
  lemma {:induction false} ReplaceWithoutOccurrence(s: string, t: string, r: string)
    requires |t| > 0
    ensures !Occurs(s, t) ==> Replace(s, t, r) == s
    decreases |s|
  {
    if |s| >= |t| && !Occurs(s, t) {
      assert !MatchAt(s, t, 0);
      assert s[0..0 + |t|] == s[..|t|];
      assert !Occurs(s[1..], t) by {
        forall i: nat | i + |t| <= |s[1..]| ensures !MatchAt(s[1..], t, i) {
          assert s[1..][i..i + |t|] == s[i + 1..i + 1 + |t|];
          assert !MatchAt(s, t, i + 1);
        }
      }
      ReplaceWithoutOccurrence(s[1..], t, r);
      assert s == [s[0]] + s[1..];
    }
  }

  /** A prefix that does not contain the target's first character is copied as it is. */
  lemma {:induction false} ReplaceSkipsFreePrefix(a: string, b: string, t: string, r: string)
    requires |t| > 0 && t[0] !in a
    ensures Replace(a + b, t, r) == a + Replace(b, t, r)
    decreases |a|
  {
    var s := a + b;
    if a == [] {
      assert s == b;
    } else if |s| < |t| {
      assert Replace(b, t, r) == b;
    } else {
      assert s[..|t|][0] == a[0];
      assert s[1..] == a[1..] + b;
      ReplaceSkipsFreePrefix(a[1..], b, t, r);
      assert a == [a[0]] + a[1..];
    }
  }

  /** An occurrence at the front is replaced, and the rest is processed after it. */
  lemma ReplaceAtFront(t: string, b: string, r: string)
    requires |t| > 0
    ensures Replace(t + b, t, r) == r + Replace(b, t, r)
  {
    assert (t + b)[..|t|] == t;
    assert (t + b)[|t|..] == b;
  }

  // ---- String.valueOf(int) ----

  function DigitChar(d: int): char
    requires 0 <= d < 10
  {
    ('0' as int + d) as char
  }

  /** The decimal digits of n, most significant first, without leading zeros. */
  function Digits(n: nat): (s: string)
    ensures |s| >= 1 && (|s| == 1 <==> n < 10)
    ensures forall c :: c in s ==> '0' <= c <= '9'
    ensures s[0] == '0' <==> n == 0
  {
    if n < 10 then [DigitChar(n)] else Digits(n / 10) + [DigitChar(n % 10)]
  }

  /** String.valueOf(int): an optional minus sign followed by the digits. */
  function Decimal(n: int): (s: string)
    ensures |s| >= 1
    ensures forall c :: c in s ==> c == '-' || '0' <= c <= '9'
    ensures (s[0] == '-') <==> n < 0
    ensures n < 0 ==> s[1..] == Digits(-n)
    ensures n >= 0 ==> s == Digits(n)
  {
    if n < 0 then "-" + Digits(-n) else assert Digits(n)[0] in Digits(n); Digits(n)
  }

  /** The value of a digit character. */
  function DigitValue(c: char): (d: nat)
    ensures '0' <= c <= '9' ==> d < 10 && DigitChar(d) == c
  {
    if '0' <= c <= '9' then c as int - '0' as int else 0
  }

  /** The value of a string of decimal digits read most significant first (Integer.parseInt). */
  function DigitsValue(s: string): nat {
    if s == [] then 0 else 10 * DigitsValue(s[..|s| - 1]) + DigitValue(s[|s| - 1])
  }

  /** A numeral with an optional minus sign, read back. */
  function DecimalValue(s: string): int {
    if |s| > 0 && s[0] == '-' then -(DigitsValue(s[1..]) as int) else DigitsValue(s)
  }

  /** Reading the digits back gives the number: the digits are most significant first. */
  lemma {:induction false} DigitsRoundTrip(n: nat)
    ensures DigitsValue(Digits(n)) == n
  {
    if n >= 10 {
      var s := Digits(n);
      assert s[..|s| - 1] == Digits(n / 10);
      DigitsRoundTrip(n / 10);
      assert DigitValue(s[|s| - 1]) == n % 10;
    } else {
      assert Digits(n)[..0] == [];
    }
  }

  /** Reading the path segment back gives the year, negative years included. */
  lemma DecimalRoundTrip(n: int)
    ensures DecimalValue(Decimal(n)) == n
  {
    if n < 0 {
      DigitsRoundTrip(-n);
    } else {
      DigitsRoundTrip(n);
    }
  }

  lemma {:induction false} DigitsInjective(a: nat, b: nat)
    requires Digits(a) == Digits(b)
    ensures a == b
  {
    if a >= 10 && b >= 10 {
      var da, db := Digits(a), Digits(b);
      assert da[|da| - 1] == DigitChar(a % 10) && db[|db| - 1] == DigitChar(b % 10);
      assert a % 10 == b % 10;
      assert da[..|da| - 1] == Digits(a / 10) && db[..|db| - 1] == Digits(b / 10);
      DigitsInjective(a / 10, b / 10);
    } else {
      assert Digits(a)[0] == DigitChar(a) && Digits(b)[0] == DigitChar(b);
    }
  }

  /** Distinct years give distinct path segments. */
  lemma DecimalInjective(a: int, b: int)
    requires Decimal(a) == Decimal(b)
    ensures a == b
  {
    if a < 0 && b < 0 {
      assert Decimal(a)[1..] == Digits(-a) && Decimal(b)[1..] == Digits(-b);
      DigitsInjective(-a, -b);
    } else if a >= 0 && b >= 0 {
      DigitsInjective(a, b);
    }
  }

  // ---- The request URL ----

  const YearPlaceholder: string := "{year}"
  const CountryCodePlaceholder: string := "{countryCode}"

  /**
   * The template with every {year} replaced by the decimal year, then every {countryCode}
   * by the code; a template with neither placeholder is the URL itself.
   */
  function BuildUrl(template: string, year: int, countryCode: string): (url: string)
    ensures !Occurs(template, YearPlaceholder) && !Occurs(template, CountryCodePlaceholder) ==> url == template
  {
    ReplaceWithoutOccurrence(template, YearPlaceholder, Decimal(year));
    ReplaceWithoutOccurrence(template, CountryCodePlaceholder, countryCode);
    Replace(Replace(template, YearPlaceholder, Decimal(year)), CountryCodePlaceholder, countryCode)
  }

  /**
   * A template of the configured shape, the year placeholder before the code placeholder
   * and no other braces, turns into the path with the year and the code in their places.
   */
  lemma BuildUrlShape(p: string, m: string, s: string, year: int, countryCode: string)
    requires '{' !in p && '{' !in m && '{' !in s
    ensures BuildUrl(p + YearPlaceholder + m + CountryCodePlaceholder + s, year, countryCode)
         == p + Decimal(year) + m + countryCode + s
  {
    var d := Decimal(year);
    var tail := CountryCodePlaceholder[1..] + s;
    assert '{' !in tail;
    // first pass: {year}
    assert Replace(CountryCodePlaceholder + s, YearPlaceholder, d) == CountryCodePlaceholder + s by {
      var cs := CountryCodePlaceholder + s;
      assert cs[..|YearPlaceholder|] != YearPlaceholder by {
        assert cs[1] == CountryCodePlaceholder[1] == 'c';
        assert cs[..|YearPlaceholder|][1] == 'c';
      }
      assert cs[1..] == tail;
      ReplaceSkipsFreePrefix(tail, [], YearPlaceholder, d);
      assert tail + [] == tail;
      assert cs == [cs[0]] + cs[1..];
    }
    calc {
      Replace(p + YearPlaceholder + m + CountryCodePlaceholder + s, YearPlaceholder, d);
      { assert p + YearPlaceholder + m + CountryCodePlaceholder + s == p + (YearPlaceholder + (m + (CountryCodePlaceholder + s)));
        ReplaceSkipsFreePrefix(p, YearPlaceholder + (m + (CountryCodePlaceholder + s)), YearPlaceholder, d); }
      p + Replace(YearPlaceholder + (m + (CountryCodePlaceholder + s)), YearPlaceholder, d);
      { ReplaceAtFront(YearPlaceholder, m + (CountryCodePlaceholder + s), d); }
      p + (d + Replace(m + (CountryCodePlaceholder + s), YearPlaceholder, d));
      { ReplaceSkipsFreePrefix(m, CountryCodePlaceholder + s, YearPlaceholder, d); }
      p + (d + (m + (CountryCodePlaceholder + s)));
    }
    // second pass: {countryCode}
    var pre := p + d + m;
    assert '{' !in pre;
    calc {
      Replace(p + (d + (m + (CountryCodePlaceholder + s))), CountryCodePlaceholder, countryCode);
      { assert p + (d + (m + (CountryCodePlaceholder + s))) == pre + (CountryCodePlaceholder + s);
        ReplaceSkipsFreePrefix(pre, CountryCodePlaceholder + s, CountryCodePlaceholder, countryCode); }
      pre + Replace(CountryCodePlaceholder + s, CountryCodePlaceholder, countryCode);
      { ReplaceAtFront(CountryCodePlaceholder, s, countryCode); }
      pre + (countryCode + Replace(s, CountryCodePlaceholder, countryCode));
      { ReplaceSkipsFreePrefix(s, [], CountryCodePlaceholder, countryCode); assert s + [] == s; }
      pre + (countryCode + s);
    }
  }

  lemma YearDigits2025()
    ensures Decimal(2025) == "2025"
  {
    assert Digits(2) == "2";
    assert Digits(20) == Digits(2) + "0";
    assert Digits(202) == Digits(20) + "2";
    assert Digits(2025) == Digits(202) + "5";
  }

  /** The configured template's shape: a brace-free prefix, then {year}/{countryCode}. */
  lemma YearSlashCode(template: string, p: string, year: int, countryCode: string)
    requires '{' !in p && template == p + YearPlaceholder + "/" + CountryCodePlaceholder
    ensures BuildUrl(template, year, countryCode) == p + Decimal(year) + "/" + countryCode
  {
    BuildUrlShape(p, "/", "", year, countryCode);
    assert template == p + YearPlaceholder + "/" + CountryCodePlaceholder + "";
    assert p + Decimal(year) + "/" + countryCode + "" == p + Decimal(year) + "/" + countryCode;
  }

  /** The configured path for 2025 and KR. */
  lemma ConfiguredPathExample(template: string, year: int, countryCode: string)
    requires template == "/api/v3/PublicHolidays/{year}/{countryCode}" && year == 2025 && countryCode == "KR"
    ensures BuildUrl(template, year, countryCode) == "/api/v3/PublicHolidays/2025/KR"
  {
    var p := "/api/v3/PublicHolidays/";
    assert '{' !in p;
    assert template == p + YearPlaceholder + "/" + CountryCodePlaceholder;
    YearSlashCode(template, p, year, countryCode);
    YearDigits2025();
  }

  // ---- The exchange and its error mapping ----

  /** One element of the provider's response body. */
  datatype HolidayJson = HolidayJson(
    date: LocalDate,
    localName: string,
    name: string,
    fixed: bool,
    global: bool,
    launchYear: Option<string>,
    counties: seq<string>,
    types: seq<string>)

  /**
   * What the GET returns: a decoded body, an HTTP error status (WebClientResponseException),
   * or any other failure (connection, timeout, a body that does not decode).
   */
  datatype Exchange = Body(holidays: seq<HolidayJson>) | StatusError(status: int) | TransportError

  /** The configured public-holidays path and the HTTP exchange, as a function of the URL. */
  datatype HolidayApi = HolidayApi(publicHolidaysPath: string, exchange: string -> Exchange)

  /** Both onErrorMap steps: every failure becomes BusinessException(EXTERNAL_API_ERROR). */
  function MapErrors(e: Exchange): (r: Result<seq<HolidayJson>>)
    ensures r.Success? <==> e.Body?
    ensures r.Success? ==> r.value == e.holidays
    ensures r.Failure? ==> r.error == Business(ExternalApiError)
  {
    match e
    case Body(hs) => Success(hs)
    case StatusError(_) => Failure(Business(ExternalApiError))
    case TransportError => Failure(Business(ExternalApiError))
  }

  /** What fetchHolidays(year, countryCode) yields, as values. */
  function FetchResult(api: HolidayApi, year: int, countryCode: string): (r: Result<seq<HolidayJson>>)
    ensures r.Success? <==> api.exchange(BuildUrl(api.publicHolidaysPath, year, countryCode)).Body?
    ensures r.Success? ==> r.value == api.exchange(BuildUrl(api.publicHolidaysPath, year, countryCode)).holidays
    ensures r.Failure? ==> r.error == Business(ExternalApiError)
  {
    MapErrors(api.exchange(BuildUrl(api.publicHolidaysPath, year, countryCode)))
  }

  /** The state of a Holiday freshly decoded from one element: no id, no owner. */
  function DecodedRow(j: HolidayJson): (h: HolidayRow)
    ensures h.country == null && h.id.None? && h.date == j.date
  {
    HolidayRow(None, j.name, j.localName, j.date, j.fixed, j.global, j.launchYear, j.counties, j.types, null)
  }

  function DecodedRows(js: seq<HolidayJson>): (r: seq<HolidayRow>)
    ensures |r| == |js| && forall i :: 0 <= i < |js| ==> r[i] == DecodedRow(js[i])
  {
    if js == [] then [] else [DecodedRow(js[0])] + DecodedRows(js[1..])
  }

  /** bodyToFlux(Holiday.class).collectList(): one new Holiday per element, in order. */
  method Decode(js: seq<HolidayJson>) returns (hs: seq<Holiday>)
    ensures |hs| == |js|
    ensures forall i :: 0 <= i < |hs| ==> fresh(hs[i])
    ensures RowsOf(hs) == DecodedRows(js)
  {
    hs := [];
    var i := 0;
    while i < |js|
      invariant 0 <= i <= |js| && |hs| == i
      invariant forall k :: 0 <= k < i ==> fresh(hs[k]) && hs[k].Row() == DecodedRow(js[k])
    {
      var j := js[i];
      var h := new Holiday(None, j.name, j.localName, j.date, j.fixed, j.global, j.launchYear, j.counties, j.types, null);
      hs := hs + [h];
      i := i + 1;
    }
  }

  /** fetchHolidays: the received holidays, in order and unmodified, or EXTERNAL_API_ERROR. */
  method FetchHolidays(api: HolidayApi, year: int, countryCode: string) returns (r: Result<seq<Holiday>>)
    ensures r.Success? <==> FetchResult(api, year, countryCode).Success?
    ensures r.Failure? ==> r.error == Business(ExternalApiError)
    ensures r.Success? ==> (forall i :: 0 <= i < |r.value| ==> fresh(r.value[i])) &&
                           RowsOf(r.value) == DecodedRows(FetchResult(api, year, countryCode).value)
  {
    var url := BuildUrl(api.publicHolidaysPath, year, countryCode);
    var received := MapErrors(api.exchange(url));
    if received.Failure? {
      return Failure(received.error);
    }
    var hs := Decode(received.value);
    r := Success(hs);
  }

  /** An empty body is an empty list, not an error. */
  lemma EmptyBodyIsEmptyList(api: HolidayApi, year: int, countryCode: string)
    requires api.exchange(BuildUrl(api.publicHolidaysPath, year, countryCode)) == Body([])
    ensures FetchResult(api, year, countryCode) == Success([])
  {
  }
}
