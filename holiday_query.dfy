/**
 * The filtered, paged read query over the holiday store (HolidayCustomRepositoryImpl):
 * optional date-range and country-name predicates, newest date first, one page by
 * offset and page size, and a total that counts the whole table, as PageImpl reports it.
 */
module HolidayQuery {
  import opened Options
  import opened Dates
  import opened Entity
  import opened Seqs

  /** Both date bounds are optional; a missing one leaves that side open. */
  datatype SearchCondition = SearchCondition(
    startDate: Option<LocalDate>,
    endDate: Option<LocalDate>,
    countryName: Option<string>)

  /** PageRequest: the page index and its size; the first row is at pageNumber * pageSize. */
  datatype Pageable = Pageable(pageNumber: nat, pageSize: nat)
  {
    function Offset(): nat {
      pageNumber * pageSize
    }
  }

  /** HolidayInfoDto.Response: the projection the query selects. */
  datatype HolidayView = HolidayView(
    id: Option<int>,
    localName: string,
    name: string,
    country: string,
    fixed: bool,
    global: bool,
    launchYear: Option<string>,
    localDate: LocalDate)

  datatype Page = Page(content: seq<HolidayView>, pageable: Pageable, total: nat)

  // ---- The two optional predicate fragments ----

  datatype DatePredicate =
    | Between(lo: LocalDate, hi: LocalDate)
    | Goe(lo: LocalDate)
    | Loe(hi: LocalDate)
    | NoDatePredicate

  predicate DateHolds(p: DatePredicate, d: LocalDate) {
    match p
    case Between(lo, hi) => LessEq(lo, d) && LessEq(d, hi)
    case Goe(lo) => LessEq(lo, d)
    case Loe(hi) => LessEq(d, hi)
    case NoDatePredicate => true
  }

  /** The dateBetween fragment: each present bound is an inclusive limit on its side. */
  function DateBetween(startDate: Option<LocalDate>, endDate: Option<LocalDate>): (p: DatePredicate)
    ensures forall d: LocalDate :: DateHolds(p, d) <==>
      (startDate.Some? ==> LessEq(startDate.value, d)) && (endDate.Some? ==> LessEq(d, endDate.value))
    ensures p.NoDatePredicate? <==> startDate.None? && endDate.None?
  {
    if startDate.Some? && endDate.Some? then Between(startDate.value, endDate.value)
    else if startDate.Some? then Goe(startDate.value)
    else if endDate.Some? then Loe(endDate.value)
    else NoDatePredicate
  }

  datatype NamePredicate = NameEq(name: string) | NoNamePredicate

  /** The countryNameEq fragment: present whenever the name is non-null, even when it is empty. */
  function CountryNameEq(countryName: Option<string>): (p: NamePredicate)
    ensures p.NoNamePredicate? <==> countryName.None?
    ensures countryName.Some? ==> p.name == countryName.value
  {
    if countryName.Some? then NameEq(countryName.value) else NoNamePredicate
  }

  predicate NameHolds(p: NamePredicate, countryName: string) {
    match p
    case NameEq(n) => countryName == n
    case NoNamePredicate => true
  }

  /**
   * A row is selected when it has an owner (the projection navigates holiday.country,
   * an inner join) and both fragments hold.
   */
  function Matches(cond: SearchCondition, h: HolidayRow): (b: bool)
    ensures b <==>
      && h.country != null
      && (cond.startDate.Some? ==> LessEq(cond.startDate.value, h.date))
      && (cond.endDate.Some? ==> LessEq(h.date, cond.endDate.value))
      && (cond.countryName.Some? ==> h.country.name == cond.countryName.value)
  {
    h.country != null &&
    DateHolds(DateBetween(cond.startDate, cond.endDate), h.date) &&
    NameHolds(CountryNameEq(cond.countryName), h.country.name)
  }

  /** The where clause: every matching row with all its copies, and nothing else. */
  function Select(rows: seq<HolidayRow>, cond: SearchCondition): (r: seq<HolidayRow>)
    ensures |r| <= |rows|
    ensures forall h :: h in r ==> h in rows && Matches(cond, h)
    ensures forall h :: h in rows && Matches(cond, h) ==> h in r
    ensures forall h :: h in rows ==> multiset(r)[h] == if Matches(cond, h) then multiset(rows)[h] else 0
  {
    var r := Filter(rows, h => Matches(cond, h));
    assert forall h :: h in rows && Matches(cond, h) ==> multiset(r)[h] > 0;
    r
  }

  // ---- orderBy(holiday.date.desc()) ----

  predicate DescendingByDate(s: seq<HolidayRow>) {
    forall i, j :: 0 <= i < j < |s| ==> LessEq(s[j].date, s[i].date)
  }

  lemma ConsDescending(a: HolidayRow, t: seq<HolidayRow>)
    requires DescendingByDate(t)
    requires forall x :: x in t ==> LessEq(x.date, a.date)
    ensures DescendingByDate([a] + t)
  {
    forall i, j | 0 <= i < j < |[a] + t| ensures LessEq(([a] + t)[j].date, ([a] + t)[i].date) {
      assert ([a] + t)[j] == t[j - 1];
      if i > 0 {
        assert ([a] + t)[i] == t[i - 1];
      }
    }
  }

  lemma MultisetMembers(x: HolidayRow, r: seq<HolidayRow>, h: HolidayRow, s: seq<HolidayRow>)
    requires multiset(r) == multiset(s) + multiset{h}
    requires x in r
    ensures x == h || x in s
  {
    assert x in multiset(r);
  }

  function InsertByDate(h: HolidayRow, s: seq<HolidayRow>): (r: seq<HolidayRow>)
    requires DescendingByDate(s)
    ensures DescendingByDate(r)
    ensures multiset(r) == multiset(s) + multiset{h}
  {
    if s == [] then [h]
    else if LessEq(s[0].date, h.date) then
      assert forall x :: x in s ==> LessEq(x.date, h.date) by {
        forall x | x in s ensures LessEq(x.date, h.date) {
          var k :| 0 <= k < |s| && s[k] == x;
          assert LessEq(s[k].date, s[0].date);
        }
      }
      ConsDescending(h, s);
      [h] + s
    else
      var rest := InsertByDate(h, s[1..]);
      assert s == [s[0]] + s[1..];
      assert forall x :: x in rest ==> LessEq(x.date, s[0].date) by {
        forall x | x in rest ensures LessEq(x.date, s[0].date) {
          MultisetMembers(x, rest, h, s[1..]);
          if x != h {
            var k :| 0 <= k < |s[1..]| && s[1..][k] == x;
            assert s[k + 1] == x;
          }
        }
      }
      ConsDescending(s[0], rest);
      [s[0]] + rest
  }

  function SortByDateDesc(s: seq<HolidayRow>): (r: seq<HolidayRow>)
    ensures DescendingByDate(r)
    ensures multiset(r) == multiset(s)
  {
    if s == [] then []
    else
      assert s == [s[0]] + s[1..];
      InsertByDate(s[0], SortByDateDesc(s[1..]))
  }

  /** offset(o).limit(n): at most n rows starting at position o. */
  function Slice<T>(s: seq<T>, offset: nat, limit: nat): (r: seq<T>)
    ensures |r| == if offset < |s| then (if limit < |s| - offset then limit else |s| - offset) else 0
    ensures forall k :: 0 <= k < |r| ==> r[k] == s[offset + k]
  {
    if offset >= |s| then [] else s[offset..if limit < |s| - offset then offset + limit else |s|]
  }

  /** The projection: the row's own fields and its owner's name, in the constructor's argument order. */
  function View(h: HolidayRow): (v: HolidayView)
    requires h.country != null
    ensures v.id == h.id && v.localName == h.localName && v.name == h.name && v.country == h.country.name
    ensures v.fixed == h.fixed && v.global == h.global && v.launchYear == h.launchYear && v.localDate == h.date
  {
    HolidayView(h.id, h.localName, h.name, h.country.name, h.fixed, h.global, h.launchYear, h.date)
  }

  function Views(s: seq<HolidayRow>): (r: seq<HolidayView>)
    requires forall h :: h in s ==> h.country != null
    ensures |r| == |s| && forall k :: 0 <= k < |s| ==> r[k] == View(s[k])
  {
    if s == [] then [] else [View(s[0])] + Views(s[1..])
  }

  /** The selected rows, newest first: the sequence the page is cut from. */
  function Ordered(rows: seq<HolidayRow>, cond: SearchCondition): (r: seq<HolidayRow>)
    ensures DescendingByDate(r)
    ensures forall h :: h in r ==> h in rows && Matches(cond, h)
    ensures multiset(r) == multiset(Select(rows, cond))
    ensures |r| == |Select(rows, cond)|
  {
    var selected := Select(rows, cond);
    var ordered := SortByDateDesc(selected);
    assert |ordered| == |multiset(ordered)|;
    assert forall h :: h in ordered ==> h in selected by {
      forall h | h in ordered ensures h in selected { assert h in multiset(ordered); }
    }
    ordered
  }

  /** The rows of the requested page, cut from the ordered selection. */
  function PageRows(rows: seq<HolidayRow>, cond: SearchCondition, pageable: Pageable): (r: seq<HolidayRow>)
    ensures forall h :: h in r ==> h.country != null
    ensures var n, off := |Select(rows, cond)|, pageable.Offset();
      |r| == if off < n then (if pageable.pageSize < n - off then pageable.pageSize else n - off) else 0
    ensures forall k :: 0 <= k < |r| ==> r[k] == Ordered(rows, cond)[pageable.Offset() + k]
  {
    var ordered := Ordered(rows, cond);
    var off := pageable.Offset();
    var page := Slice(ordered, off, pageable.pageSize);
    assert forall h :: h in page ==> h.country != null by {
      forall h | h in page ensures h.country != null {
        var k :| 0 <= k < |page| && page[k] == h;
        assert ordered[off + k] in ordered;
      }
    }
    page
  }

  /**
   * new PageImpl(content, pageable, total): a non-empty page that reaches past the given
   * total reports offset + |content| as the total instead.
   */
  function PageOf(content: seq<HolidayView>, pageable: Pageable, total: nat): (p: Page)
    ensures p.content == content && p.pageable == pageable
    ensures content == [] || pageable.Offset() + pageable.pageSize <= total ==> p.total == total
    ensures content != [] && pageable.Offset() + pageable.pageSize > total ==>
      p.total == pageable.Offset() + |content|
  {
    if content != [] && pageable.Offset() + pageable.pageSize > total then
      Page(content, pageable, pageable.Offset() + |content|)
    else
      Page(content, pageable, total)
  }

  /**
   * findHolidaysByFilters: one page of the ordered selection (each item copies its
   * row's fields and its owner's name), with the count of every stored row handed to
   * PageImpl as the total.
   */
  function FindHolidaysByFilters(rows: seq<HolidayRow>, cond: SearchCondition, pageable: Pageable): (r: Page)
    ensures r.pageable == pageable
    ensures |r.content| <= pageable.pageSize
    ensures |r.content| == |PageRows(rows, cond, pageable)|
    ensures forall k :: 0 <= k < |r.content| ==> r.content[k] == View(PageRows(rows, cond, pageable)[k])
    ensures r.total <= |rows|
    ensures r.content != [] ==> pageable.Offset() + |r.content| <= r.total
    ensures r.content == [] || pageable.Offset() + pageable.pageSize <= |rows| ==> r.total == |rows|
  {
    PageOf(Views(PageRows(rows, cond, pageable)), pageable, |rows|)
  }

  /** Pages of one size follow each other: page n + 1 starts where page n's rows end. */
  lemma PagesAdjacent(p: Pageable)
    ensures Pageable(p.pageNumber + 1, p.pageSize).Offset() == p.Offset() + p.pageSize
    ensures Pageable(0, p.pageSize).Offset() == 0
  {
  }

  // ---- What the page promises ----

  /** Every returned item is the projection of a stored row that the condition selects. */
  lemma {:induction false} ContentFromMatchingRows(rows: seq<HolidayRow>, cond: SearchCondition, pageable: Pageable)
    ensures forall v :: v in FindHolidaysByFilters(rows, cond, pageable).content ==>
      exists h :: h in rows && Matches(cond, h) && v == View(h)
  {
    var r := FindHolidaysByFilters(rows, cond, pageable);
    var page := PageRows(rows, cond, pageable);
    forall v | v in r.content ensures exists h :: h in rows && Matches(cond, h) && v == View(h) {
      var k :| 0 <= k < |r.content| && r.content[k] == v;
      assert Ordered(rows, cond)[pageable.Offset() + k] in Ordered(rows, cond);
      assert v == View(page[k]);
    }
  }

  /** Every returned item lies within each bound that is present, and carries the requested name. */
  lemma {:induction false} ContentSatisfiesCondition(rows: seq<HolidayRow>, cond: SearchCondition, pageable: Pageable)
    ensures forall v :: v in FindHolidaysByFilters(rows, cond, pageable).content ==>
      (cond.startDate.Some? ==> LessEq(cond.startDate.value, v.localDate)) &&
      (cond.endDate.Some? ==> LessEq(v.localDate, cond.endDate.value)) &&
      (cond.countryName.Some? ==> v.country == cond.countryName.value)
  {
    ContentFromMatchingRows(rows, cond, pageable);
  }

  /** With both bounds the range is inclusive at both ends. */
  lemma BothBoundsInclusive(rows: seq<HolidayRow>, cond: SearchCondition, pageable: Pageable)
    requires cond.startDate.Some? && cond.endDate.Some?
    ensures forall v :: v in FindHolidaysByFilters(rows, cond, pageable).content ==>
      LessEq(cond.startDate.value, v.localDate) && LessEq(v.localDate, cond.endDate.value)
  {
    ContentSatisfiesCondition(rows, cond, pageable);
  }

  /** With only a start date, every item is on or after it. */
  lemma StartBoundOnly(rows: seq<HolidayRow>, cond: SearchCondition, pageable: Pageable)
    requires cond.startDate.Some? && cond.endDate.None?
    ensures forall v :: v in FindHolidaysByFilters(rows, cond, pageable).content ==>
      LessEq(cond.startDate.value, v.localDate)
  {
    ContentSatisfiesCondition(rows, cond, pageable);
  }

  /** With only an end date, every item is on or before it. */
  lemma EndBoundOnly(rows: seq<HolidayRow>, cond: SearchCondition, pageable: Pageable)
    requires cond.startDate.None? && cond.endDate.Some?
    ensures forall v :: v in FindHolidaysByFilters(rows, cond, pageable).content ==>
      LessEq(v.localDate, cond.endDate.value)
  {
    ContentSatisfiesCondition(rows, cond, pageable);
  }

  /** With neither bound, a row's date plays no part in whether it is selected. */
  lemma NoBoundNoDateFilter(cond: SearchCondition, h: HolidayRow, d: LocalDate)
    requires cond.startDate.None? && cond.endDate.None?
    ensures Matches(cond, h) <==> Matches(cond, h.(date := d))
    ensures Matches(cond, h) <==> h.country != null && NameHolds(CountryNameEq(cond.countryName), h.country.name)
  {
  }

  /**
   * The name test is `!= null`: an absent name selects every owner, a present one (the
   * empty string included) selects exactly the owners with that name.
   */
  lemma NameFilter(cond: SearchCondition, h: HolidayRow)
    requires h.country != null && DateHolds(DateBetween(cond.startDate, cond.endDate), h.date)
    ensures cond.countryName.None? ==> Matches(cond, h)
    ensures cond.countryName.Some? ==> (Matches(cond, h) <==> h.country.name == cond.countryName.value)
  {
  }

  /** A selected row that the query may return is never lost: it is in the ordered selection. */
  lemma SelectionComplete(rows: seq<HolidayRow>, cond: SearchCondition, h: HolidayRow)
    requires h in rows && Matches(cond, h)
    ensures h in Ordered(rows, cond)
  {
    var selected := Select(rows, cond);
    assert h in multiset(selected);
    assert multiset(SortByDateDesc(selected)) == multiset(selected);
  }

  /** Items come newest first. */
  lemma {:induction false} ContentNewestFirst(rows: seq<HolidayRow>, cond: SearchCondition, pageable: Pageable)
    ensures var c := FindHolidaysByFilters(rows, cond, pageable).content;
      forall i, j :: 0 <= i < j < |c| ==> LessEq(c[j].localDate, c[i].localDate)
  {
    var c := FindHolidaysByFilters(rows, cond, pageable).content;
    var page := PageRows(rows, cond, pageable);
    var ordered := Ordered(rows, cond);
    forall i, j | 0 <= i < j < |c| ensures LessEq(c[j].localDate, c[i].localDate) {
      assert c[i].localDate == page[i].date == ordered[pageable.Offset() + i].date;
      assert c[j].localDate == page[j].date == ordered[pageable.Offset() + j].date;
    }
  }

  /**
   * The count handed to PageImpl is unfiltered: for pages that end within the table the
   * total is the same whatever the condition.
   */
  lemma TotalIgnoresCondition(rows: seq<HolidayRow>, c1: SearchCondition, c2: SearchCondition, p: Pageable)
    requires p.Offset() + p.pageSize <= |rows|
    ensures FindHolidaysByFilters(rows, c1, p).total == FindHolidaysByFilters(rows, c2, p).total == |rows|
  {
  }

  /**
   * A German and a Japanese holiday, searched for Germany on a page of ten: one item, and
   * PageImpl's correction makes the total 1 rather than the table's 2.
   */
  lemma ShortPageCorrectsTotal(germany: Country, japan: Country, g: HolidayRow, j: HolidayRow)
    requires germany.name == "Germany" && japan.name == "Japan"
    requires g.country == germany && j.country == japan
    ensures var r := FindHolidaysByFilters([g, j], SearchCondition(None, None, Some("Germany")), Pageable(0, 10));
      |r.content| == 1 && r.total == 1
  {
    var cond := SearchCondition(None, None, Some("Germany"));
    assert Matches(cond, g) && !Matches(cond, j);
    var sel := Select([g, j], cond);
    assert multiset(sel)[g] >= 1;
    assert |sel| == 1 by {
      assert multiset(sel) == multiset{g} by {
        forall h ensures multiset(sel)[h] == multiset{g}[h] {
          if h == g {
            assert multiset([g, j]) == multiset{g} + multiset{j};
          }
        }
      }
      assert |multiset(sel)| == |sel|;
    }
  }

  /** A store with one Japanese holiday, searched for Germany: no items, yet a total of one. */
  lemma TotalCountsUnmatchedRows(japan: Country, h: HolidayRow)
    requires japan.name == "Japan" && h.country == japan
    ensures var r := FindHolidaysByFilters([h], SearchCondition(None, None, Some("Germany")), Pageable(0, 10));
      r.content == [] && r.total == 1
  {
    var cond := SearchCondition(None, None, Some("Germany"));
    assert !Matches(cond, h);
    assert |Select([h], cond)| == 0;
  }

  /**
   * The scenario: German Unity Day 2025 stored for Germany, searched over 2025 for
   * Germany, page 0 of size 10, is returned as the single item, field for field, with a
   * total of 1.
   */
  lemma GermanUnityDay(germany: Country, h: HolidayRow)
    requires germany.name == "Germany"
    requires h == HolidayRow(Some(1), "German Unity Day", "독일 통일의 날", Date(2025, 10, 3), true, false,
                             Some("1990"), [], [], germany)
    ensures var r := FindHolidaysByFilters([h],
              SearchCondition(Some(Date(2025, 1, 1)), Some(Date(2025, 12, 31)), Some("Germany")), Pageable(0, 10));
      r.content == [HolidayView(Some(1), "독일 통일의 날", "German Unity Day", "Germany", true, false,
                                Some("1990"), Date(2025, 10, 3))] && r.total == 1
  {
    var cond := SearchCondition(Some(Date(2025, 1, 1)), Some(Date(2025, 12, 31)), Some("Germany"));
    assert Matches(cond, h);
    assert Filter([h], x => Matches(cond, x)) == [h] by {
      FilterKeepsAll([h], x => Matches(cond, x));
    }
    assert Ordered([h], cond) == [h];
  }
}
