/** The public results page: the fetched results with their photo URLs, the
    years they span as buttons from the latest down, the latest year
    selected, and the results of the selected year. */
module ResultsPage {

  import opened Js
  import Text

  /** A row of `/api/results`; the page adds `photoUrl`. */
  datatype Result = Result(id: nat, name: Value, rank: Value, college: Value, year: int, photoUrl: Option<string>)

  /** The page's state. */
  datatype Page = Page(items: seq<Result>, years: seq<int>, selected: Option<int>, loading: bool)

  const Initial: Page := Page([], [], None, true)

  predicate Descending(s: seq<int>) {
    forall i, j :: 0 <= i < j < |s| ==> s[i] > s[j]
  }

  predicate Distinct(s: seq<int>) {
    forall i, j :: 0 <= i < j < |s| ==> s[i] != s[j]
  }

  /** `rs.map(r => r.year)` */
  function YearsOf(rs: seq<Result>): (r: seq<int>)
    ensures |r| == |rs|
    ensures forall i :: 0 <= i < |rs| ==> r[i] == rs[i].year
  {
    seq(|rs|, i requires 0 <= i < |rs| => rs[i].year)
  }

  /** `[...new Set(ys)]`: each value once, at its first occurrence. */
  function Unique(ys: seq<int>): (r: seq<int>)
    ensures Distinct(r)
    ensures forall y :: y in r <==> y in ys
    decreases |ys|
  {
    if ys == [] then []
    else
      var u := Unique(ys[..|ys| - 1]);
      var y := ys[|ys| - 1];
      assert ys == ys[..|ys| - 1] + [y];
      if y in u then u else u + [y]
  }

  /** One step of sorting with `(a, b) => b - a`: a new value put in its
      place in a descending run. */
  function Insert(y: int, s: seq<int>): (r: seq<int>)
    requires Descending(s) && y !in s
    ensures Descending(r)
    ensures |r| == |s| + 1
    ensures forall x :: x in r <==> x in s || x == y
  {
    if s == [] || y > s[0] then [y] + s
    else
      var t := Insert(y, s[1..]);
      assert y != s[0];
      forall k | 0 <= k < |t| ensures t[k] < s[0] {
        assert t[k] in t;
        if t[k] != y {
          var j :| 0 <= j < |s[1..]| && s[1..][j] == t[k];
          assert s[j + 1] == t[k];
        }
      }
      [s[0]] + t
  }

  /** `sort((a, b) => b - a)` on distinct numbers. With no two equal, the
      comparator leaves exactly one possible order. */
  function SortDescending(u: seq<int>): (r: seq<int>)
    requires Distinct(u)
    ensures Descending(r)
    ensures |r| == |u|
    ensures forall x :: x in r <==> x in u
    decreases |u|
  {
    if u == [] then []
    else
      var front := u[..|u| - 1];
      var last := u[|u| - 1];
      assert u == front + [last];
      assert last !in front;
      Insert(last, SortDescending(front))
  }

  /** `[...new Set(data.map(r => r.year))].sort((a, b) => b - a)` */
  function Years(items: seq<Result>): (r: seq<int>)
    ensures Descending(r)
    ensures forall y :: y in r <==> y in YearsOf(items)
    ensures |r| <= |items|
  {
    var u := Unique(YearsOf(items));
    var r := SortDescending(u);
    DistinctNoLonger(u, YearsOf(items));
    r
  }

  /** Distinct values drawn from `s` are no more than `s` holds. */
  lemma {:induction false} DistinctNoLonger(u: seq<int>, s: seq<int>)
    requires Distinct(u) && forall y :: y in u ==> y in s
    ensures |u| <= |s|
    decreases |u|
  {
    if u != [] {
      var x := u[|u| - 1];
      assert x in u;
      var k :| 0 <= k < |s| && s[k] == x;
      var rest := s[..k] + s[k + 1..];
      forall y | y in u[..|u| - 1] ensures y in rest {
        var i :| 0 <= i < |u| - 1 && u[i] == y;
        assert y != x && y in u;
        var j :| 0 <= j < |s| && s[j] == y;
        if j < k { assert rest[j] == y; } else { assert rest[j - 1] == y; }
      }
      DistinctNoLonger(u[..|u| - 1], rest);
    }
  }

  /** Two descending lists of the same values are the same list. */
  lemma {:induction false} DescendingUnique(a: seq<int>, b: seq<int>)
    requires Descending(a) && Descending(b)
    requires forall x :: x in a <==> x in b
    ensures a == b
    decreases |a|
  {
    assert a != [] ==> a[0] in a;
    assert b != [] ==> b[0] in b;
    if a != [] && b != [] {
      assert b[0] in a;
      assert a[0] == b[0];
      forall x ensures x in a[1..] <==> x in b[1..] {
        assert x in a[1..] <==> x in a && x < a[0];
        assert x in b[1..] <==> x in b && x < b[0];
      }
      DescendingUnique(a[1..], b[1..]);
    }
  }

  /** Whatever order `Set` and `sort` visit the years in, the list is the
      one descending list of the years present. */
  lemma YearsCanonical(items: seq<Result>, ys: seq<int>)
    requires Descending(ys)
    requires forall y :: y in ys <==> y in YearsOf(items)
    ensures ys == Years(items)
  {
    DescendingUnique(ys, Years(items));
  }

  /** `ys[0] ?? null` */
  function Selected(years: seq<int>): (r: Option<int>)
    ensures r.None? <==> years == []
    ensures r.Some? ==> r.value in years
  {
    if years == [] then None else Some(years[0])
  }

  /** The default selection is the latest year of the results, and there is
      one exactly when there are results. */
  lemma SelectedIsLatest(items: seq<Result>)
    ensures Selected(Years(items)).None? <==> items == []
    ensures Selected(Years(items)).Some? ==>
              && Selected(Years(items)).value in YearsOf(items)
              && forall i :: 0 <= i < |items| ==> items[i].year <= Selected(Years(items)).value
  {
    var ys := Years(items);
    if items != [] {
      assert items[0].year == YearsOf(items)[0];
      assert ys != [];
    }
    forall i | 0 <= i < |items| && ys != [] ensures items[i].year <= ys[0] {
      assert items[i].year == YearsOf(items)[i];
      assert items[i].year in ys;
      var j :| 0 <= j < |ys| && ys[j] == items[i].year;
    }
  }

  /** The results whose year, as a number, is `y`. */
  function ByYear(rs: seq<Result>, y: int): (r: seq<Result>)
    ensures forall x :: x in r <==> x in rs && x.year == y
    ensures |r| <= |rs|
  {
    if rs == [] then []
    else if rs[0].year == y then [rs[0]] + ByYear(rs[1..], y)
    else ByYear(rs[1..], y)
  }

  /** `rs.filter(i => String(i.year) === text)` */
  function ByText(rs: seq<Result>, text: string): (r: seq<Result>)
    ensures |r| <= |rs|
  {
    if rs == [] then []
    else if ToText(Num(rs[0].year)) == text then [rs[0]] + ByText(rs[1..], text)
    else ByText(rs[1..], text)
  }

  /** Comparing the years as text is comparing them as numbers. */
  lemma {:induction false} TextFilterIsYearFilter(rs: seq<Result>, y: int)
    ensures ByText(rs, ToText(Num(y))) == ByYear(rs, y)
    decreases |rs|
  {
    if rs != [] {
      Text.IntStringInjective(rs[0].year, y);
      TextFilterIsYearFilter(rs[1..], y);
    }
  }

  /** `selected ? items.filter(i => String(i.year) === String(selected)) : []`.
      A selected year of 0 is falsy and shows nothing. */
  function Filtered(items: seq<Result>, selected: Option<int>): (r: seq<Result>)
    ensures selected.None? || selected.value == 0 ==> r == []
    ensures selected.Some? && selected.value != 0 ==>
              forall x :: x in r <==> x in items && x.year == selected.value
    ensures forall x :: x in r ==> x in items
  {
    if selected.None? || selected.value == 0 then []
    else
      TextFilterIsYearFilter(items, selected.value);
      ByText(items, ToText(Num(selected.value)))
  }

  /** The filter keeps the order of the results it shows. */
  lemma FilteredKeepsOrder(items: seq<Result>, y: int)
    requires y != 0
    ensures Filtered(items, Some(y)) == ByYear(items, y)
  {
    TextFilterIsYearFilter(items, y);
  }

  /** Every result with a non-zero year is shown under exactly one of the
      year buttons, its own; a result of year 0 is shown under none. */
  lemma EachInOneYear(items: seq<Result>, k: nat)
    requires k < |items|
    ensures items[k].year in Years(items)
    ensures forall j :: 0 <= j < |Years(items)| ==>
              (items[k] in Filtered(items, Some(Years(items)[j])) <==>
                 Years(items)[j] == items[k].year && items[k].year != 0)
  {
    assert items[k].year == YearsOf(items)[k];
  }

  /** The photo endpoint for a result, with the fetch time appended to
      defeat caches. */
  function PhotoUrl(apiBase: string, id: nat, now: int): string {
    apiBase + "/api/results/" + Text.Decimal(id) + "/image?t=" + Text.IntString(now)
  }

  /** `{...r, photoUrl: ...}` for each row. */
  function WithPhotos(data: seq<Result>, apiBase: string, now: int): (r: seq<Result>)
    ensures |r| == |data|
    ensures forall i :: 0 <= i < |r| ==>
              r[i] == data[i].(photoUrl := Some(PhotoUrl(apiBase, data[i].id, now)))
  {
    seq(|data|, i requires 0 <= i < |data| => data[i].(photoUrl := Some(PhotoUrl(apiBase, data[i].id, now))))
  }

  /** `fetchResults` at time `now`; `None` is a failed request, which only
      ends the loading state. */
  function Fetch(page: Page, apiBase: string, now: int, response: Option<seq<Result>>): (r: Page)
    ensures !r.loading
    ensures response.None? ==> r == page.(loading := false)
    ensures response.Some? ==>
              && |r.items| == |response.value|
              && (forall i :: 0 <= i < |r.items| ==>
                    && r.items[i].id == response.value[i].id
                    && r.items[i].year == response.value[i].year
                    && r.items[i].photoUrl == Some(PhotoUrl(apiBase, response.value[i].id, now)))
              && r.years == Years(response.value)
              && r.selected == Selected(r.years)
  {
    match response
    case None => page.(loading := false)
    case Some(data) =>
      var items := WithPhotos(data, apiBase, now);
      assert YearsOf(items) == YearsOf(data);
      var ys := Years(items);
      Page(items, ys, Selected(ys), false)
  }

  /** A button press: `setSelected(year)`. */
  function Select(page: Page, year: int): (r: Page)
    requires year in page.years
    ensures r.selected == Some(year) && r.items == page.items && r.years == page.years
  {
    page.(selected := Some(year))
  }

  /** After a successful fetch the latest year is selected. */
  lemma FetchSelectsLatest(page: Page, apiBase: string, now: int, data: seq<Result>)
    ensures var p := Fetch(page, apiBase, now, Some(data));
            && (p.selected.None? <==> data == [])
            && (p.selected.Some? ==> forall i :: 0 <= i < |data| ==> data[i].year <= p.selected.value)
  {
    SelectedIsLatest(data);
  }

  /** Pressing the button of a non-zero year shows exactly that year's
      results. */
  lemma SelectShowsYear(page: Page, y: int)
    requires y in page.years && y != 0
    ensures forall i :: 0 <= i < |page.items| ==>
              (page.items[i] in Filtered(page.items, Select(page, y).selected) <==> page.items[i].year == y)
  {
    assert Select(page, y).selected == Some(y);
  }
}
