/** The results admin screen: the year list and the year filter, the form
    that creates or updates a result, and deletion that updates the list
    before the server answers and restores it when the server refuses. */
module ResultAdmin {

  import opened Js
  import Text
  import ResultsPage

  type Result = ResultsPage.Result

  /** The filter's first option. */
  const All: string := "all"

  /** A picked file, which the model does not look inside. */
  datatype File = File(name: string)

  /** A form field: a value, or a file from the file input. */
  datatype Entry = Typed(v: Value) | Picked(file: File)

  datatype Form = Form(id: Value, name: Entry, rank: Entry, college: Entry, year: Entry, image: Entry)

  /** The names of the form's inputs. */
  const Fields: set<string> := {"name", "rank", "college", "year", "image"}

  datatype State = State(
    results: seq<Result>,
    selectedYear: Value,
    availableYears: seq<int>,
    form: Form,
    preview: Option<string>)

  const EmptyForm: Form := Form(Null, Typed(Str("")), Typed(Str("")), Typed(Str("")), Typed(Str("")), Typed(Null))

  const Initial: State := State([], Str(All), [], EmptyForm, None)

  // ─────── the year list and the filter ───────

  /** The value of the year's `<option>`: React writes the number into the
      attribute, and the `<select>` reports it back as text. */
  function OptionValue(year: int): string {
    ToText(Num(year))
  }

  /** No option of a year reads as the `all` option. */
  lemma OptionNotAll(year: int)
    ensures OptionValue(year) != All
  {
    Text.NegativeSign(year);
    if year >= 0 {
      assert Text.IsDigit(OptionValue(year)[0]);
    }
  }

  /** The selection is `all` (`selectedYear === 'all'`). */
  predicate IsAll(selectedYear: Value) {
    StrictEquals(selectedYear, Str(All))
  }

  /** `filteredResults` as written: `results.filter(r => r.year === selectedYear)`
      for anything but `all`. */
  function Shown(results: seq<Result>, selectedYear: Value): (r: seq<Result>)
    ensures IsAll(selectedYear) ==> r == results
    ensures forall x :: x in r ==> x in results && (IsAll(selectedYear) || StrictEquals(Num(x.year), selectedYear))
  {
    if IsAll(selectedYear) then results else StrictlyEqual(results, selectedYear)
  }

  function StrictlyEqual(results: seq<Result>, v: Value): (r: seq<Result>)
    ensures forall x :: x in r ==> x in results && StrictEquals(Num(x.year), v)
    ensures |r| <= |results|
  {
    if results == [] then []
    else if StrictEquals(Num(results[0].year), v) then [results[0]] + StrictlyEqual(results[1..], v)
    else StrictlyEqual(results[1..], v)
  }

  /** No year is strictly equal to a text. */
  lemma {:induction false} NoNumberIsText(results: seq<Result>, text: string)
    ensures StrictlyEqual(results, Str(text)) == []
    decreases |results|
  {
    if results != [] {
      NoNumberIsText(results[1..], text);
    }
  }

  /** As written, choosing the option of a year that is in the list (the
      `<select>` reports it as text) shows no result at all, although some
      result has that year; the text comparison shows it. */
  lemma OptionShowsNothing(results: seq<Result>, k: nat)
    requires k < |results|
    ensures results[k].year in ResultsPage.Years(results)
    ensures Shown(results, Str(OptionValue(results[k].year))) == []
    ensures results[k] in ShownFixed(results, Str(OptionValue(results[k].year)))
  {
    assert results[k].year == ResultsPage.YearsOf(results)[k];
    OptionNotAll(results[k].year);
    NoNumberIsText(results, OptionValue(results[k].year));
    ShownFixedIsYear(results, results[k].year);
  }

  /** The filter with the year compared as text, as the public page does:
      `String(r.year) === String(selectedYear)`. */
  function ShownFixed(results: seq<Result>, selectedYear: Value): (r: seq<Result>)
    ensures IsAll(selectedYear) ==> r == results
    ensures |r| <= |results|
  {
    if IsAll(selectedYear) then results else ResultsPage.ByText(results, ToText(selectedYear))
  }

  /** With the comparison as text, the option of a year shows exactly the
      results of that year, in order, and so does the year as a number. */
  lemma ShownFixedIsYear(results: seq<Result>, year: int)
    ensures ShownFixed(results, Str(OptionValue(year))) == ResultsPage.ByYear(results, year)
    ensures ShownFixed(results, Num(year)) == ResultsPage.ByYear(results, year)
    ensures forall x :: x in ShownFixed(results, Str(OptionValue(year))) <==> x in results && x.year == year
  {
    OptionNotAll(year);
    ResultsPage.TextFilterIsYearFilter(results, year);
  }

  /** The corrected filter sorts every result under exactly one option of
      the year list, its own year's. */
  lemma FixedEachInOneOption(results: seq<Result>, k: nat)
    requires k < |results|
    ensures results[k].year in ResultsPage.Years(results)
    ensures forall j :: 0 <= j < |ResultsPage.Years(results)| ==>
              (results[k] in ShownFixed(results, Str(OptionValue(ResultsPage.Years(results)[j]))) <==>
                 ResultsPage.Years(results)[j] == results[k].year)
  {
    assert results[k].year == ResultsPage.YearsOf(results)[k];
    var ys := ResultsPage.Years(results);
    forall j | 0 <= j < |ys| ensures results[k] in ShownFixed(results, Str(OptionValue(ys[j]))) <==> ys[j] == results[k].year {
      ShownFixedIsYear(results, ys[j]);
    }
  }

  /** The select's `onChange`: `setSelectedYear(e.target.value)`. */
  function SelectYear(s: State, value: string): (r: State)
    ensures r.selectedYear == Str(value) && r.results == s.results && r.availableYears == s.availableYears
  {
    s.(selectedYear := Str(value))
  }


  /** As written, choosing anything but `all` empties the list: the choice
      is stored as text and no year is strictly equal to a text. */
  lemma SelectThenShown(s: State, value: string)
    ensures var r := SelectYear(s, value);
            Shown(r.results, r.selectedYear) == (if value == All then s.results else [])
  {
    NoNumberIsText(s.results, value);
  }

  /** What `fetchResults` receives: a failed request, a falsy body, or
      rows. */
  datatype Response = Failed | Falsy | Rows(rows: seq<Result>)

  /** `fetchResults`: the list and the year list are replaced; a failure
      leaves everything as it was. */
  function Fetch(s: State, response: Response): (r: State)
    ensures response.Failed? ==> r == s
    ensures response.Falsy? ==> r.results == [] && r.availableYears == []
    ensures response.Rows? ==> r.results == response.rows && r.availableYears == ResultsPage.Years(response.rows)
    ensures r.form == s.form && r.selectedYear == s.selectedYear && r.preview == s.preview
  {
    match response
    case Failed => s
    case Falsy => s.(results := [], availableYears := ResultsPage.Years([]))
    case Rows(rows) => s.(results := rows, availableYears := ResultsPage.Years(rows))
  }

  /** After a fetch the year list lists each year of the results once,
      latest first. */
  lemma FetchedYearsDescending(s: State, response: Response)
    requires !response.Failed?
    ensures var r := Fetch(s, response);
            && ResultsPage.Descending(r.availableYears)
            && forall y :: y in r.availableYears <==> y in ResultsPage.YearsOf(r.results)
  {
  }

  // ─────── deletion ───────

  /** `results.filter(r => r.id !== id)` */
  function Without(results: seq<Result>, id: nat): (r: seq<Result>)
    ensures forall x :: x in r <==> x in results && x.id != id
    ensures |r| + Count(results, id) == |results|
  {
    if results == [] then []
    else if results[0].id != id then [results[0]] + Without(results[1..], id)
    else Without(results[1..], id)
  }

  /** How many results carry `id`. */
  function Count(results: seq<Result>, id: nat): nat {
    if results == [] then 0
    else (if results[0].id == id then 1 else 0) + Count(results[1..], id)
  }

  /** Removing an id nobody has changes nothing, and removing it twice is
      removing it once. */
  lemma {:induction false} WithoutAbsent(results: seq<Result>, id: nat)
    requires forall i :: 0 <= i < |results| ==> results[i].id != id
    ensures Without(results, id) == results
    decreases |results|
  {
    if results != [] {
      WithoutAbsent(results[1..], id);
    }
  }

  lemma WithoutIdempotent(results: seq<Result>, id: nat)
    ensures Without(Without(results, id), id) == Without(results, id)
  {
    var w := Without(results, id);
    forall i | 0 <= i < |w| ensures w[i].id != id {
      assert w[i] in w;
    }
    WithoutAbsent(w, id);
  }

  /** Where a delete stands after the confirmation: not confirmed, or sent
      with the list as it was before. */
  datatype Pending = Declined | Sent(snapshot: seq<Result>)

  /** The first half of `handleDelete`: on confirmation the rows with that
      id leave the list at once. */
  function BeginDelete(s: State, id: nat, confirmed: bool): (r: (State, Pending))
    ensures !confirmed ==> r == (s, Declined)
    ensures confirmed ==> r.1 == Sent(s.results)
    ensures confirmed ==> forall x :: x in r.0.results <==> x in s.results && x.id != id
    ensures r.0.availableYears == s.availableYears && r.0.form == s.form && r.0.selectedYear == s.selectedYear
  {
    if !confirmed then (s, Declined)
    else (s.(results := Without(s.results, id)), Sent(s.results))
  }

  /** The second half: the server's answer. A refusal puts the snapshot
      back. */
  function FinishDelete(s: State, pending: Pending, deleted: bool): (r: State)
    ensures pending.Sent? && !deleted ==> r.results == pending.snapshot
    ensures pending.Declined? || deleted ==> r == s
    ensures r.availableYears == s.availableYears && r.form == s.form
  {
    match pending
    case Declined => s
    case Sent(snapshot) => if deleted then s else s.(results := snapshot)
  }

  /** Over both halves: a refused or declined delete leaves the list as it
      was; an accepted one removes exactly the rows with that id, keeps the
      others in order, and leaves the year list alone. */
  lemma DeleteOutcome(s: State, id: nat, confirmed: bool, deleted: bool)
    ensures var b := BeginDelete(s, id, confirmed);
            var r := FinishDelete(b.0, b.1, deleted);
            && (!confirmed || !deleted ==> r.results == s.results)
            && (confirmed && deleted ==>
                  && r.results == Without(s.results, id)
                  && |r.results| == |s.results| - Count(s.results, id))
            && r.availableYears == s.availableYears
  {
  }

  // ─────── the form ───────

  /** `resetForm` */
  function ResetForm(s: State): (r: State)
    ensures r.form == Initial.form && r.preview.None?
    ensures r.results == s.results && r.availableYears == s.availableYears && r.selectedYear == s.selectedYear
  {
    s.(form := EmptyForm, preview := None)
  }

  /** The path of a result's image. */
  function ImagePath(id: nat): string {
    "/api/results/" + Text.Decimal(id) + "/image"
  }

  /** `handleEdit`: the form takes the item's fields, and a new image must
      be picked to change the stored one. */
  function HandleEdit(s: State, item: Result): (r: State)
    ensures r.form.id == Num(item.id)
    ensures r.form.name == Typed(item.name) && r.form.rank == Typed(item.rank) && r.form.college == Typed(item.college)
    ensures r.form.year == Typed(Num(item.year))
    ensures r.form.image == Typed(Null)
    ensures r.preview == Some(ImagePath(item.id))
    ensures r.results == s.results
  {
    s.(form := Form(Num(item.id), Typed(item.name), Typed(item.rank), Typed(item.college), Typed(Num(item.year)), Typed(Null)),
       preview := Some(ImagePath(item.id)))
  }

  /** `handleChange` on the input called `field`, with the input's text
      and its first file if any (`file || value`); `objectUrl` is what the
      browser gives for the picked file. */
  function HandleChange(s: State, field: string, value: string, file: Option<File>, objectUrl: string): (r: State)
    requires field in Fields
    ensures r.form.id == s.form.id
    ensures field != "name" ==> r.form.name == s.form.name
    ensures field != "rank" ==> r.form.rank == s.form.rank
    ensures field != "college" ==> r.form.college == s.form.college
    ensures field != "year" ==> r.form.year == s.form.year
    ensures field != "image" ==> r.form.image == s.form.image
    ensures field == "image" && file.Some? ==> r.preview == Some(objectUrl)
    ensures field != "image" || file.None? ==> r.preview == s.preview
  {
    var e := if file.Some? then Picked(file.value) else Typed(Str(value));
    var f := s.form;
    var form :=
      if field == "name" then f.(name := e)
      else if field == "rank" then f.(rank := e)
      else if field == "college" then f.(college := e)
      else if field == "year" then f.(year := e)
      else f.(image := e);
    s.(form := form, preview := if field == "image" && file.Some? then Some(objectUrl) else s.preview)
  }

  /** A part of the submitted `FormData`: appended values become text,
      files stay files. */
  datatype Part = TextPart(text: string) | FilePart(file: File)

  function PartOf(e: Entry): Part {
    match e
    case Typed(v) => TextPart(ToText(v))
    case Picked(f) => FilePart(f)
  }

  function EntryTruthy(e: Entry): bool {
    match e
    case Typed(v) => Truthy(v)
    case Picked(_) => true
  }

  datatype Request = Request(verb: string, path: string, parts: seq<(string, Part)>)

  /** `handleSubmit`'s request: an update of the form's id when it is
      truthy, a creation otherwise; the image goes along only when set. */
  function Submit(form: Form): (r: Request)
    ensures |r.parts| >= 4 && r.parts[..4] == [("name", PartOf(form.name)), ("rank", PartOf(form.rank)),
                                                ("college", PartOf(form.college)), ("year", PartOf(form.year))]
    ensures |r.parts| == 5 <==> EntryTruthy(form.image)
    ensures |r.parts| == 5 ==> r.parts[4] == ("image", PartOf(form.image))
    ensures Truthy(form.id) ==> r.verb == "PUT" && r.path == "/api/results/" + ToText(form.id)
    ensures !Truthy(form.id) ==> r.verb == "POST" && r.path == "/api/results"
  {
    var parts := [("name", PartOf(form.name)), ("rank", PartOf(form.rank)),
                  ("college", PartOf(form.college)), ("year", PartOf(form.year))];
    var all := if EntryTruthy(form.image) then parts + [("image", PartOf(form.image))] else parts;
    if Truthy(form.id) then Request("PUT", "/api/results/" + ToText(form.id), all)
    else Request("POST", "/api/results", all)
  }

  /** The answer to the request: on success the form is reset (the list is
      fetched again separately); on failure nothing changes. */
  function AfterSubmit(s: State, saved: bool): (r: State)
    ensures !saved ==> r == s
    ensures saved ==> r == ResetForm(s)
  {
    if saved then ResetForm(s) else s
  }


  /** After a saved submit the next submit creates a new result; after a
      failed one, submitting again sends the very same request. */
  lemma AfterSubmitNext(s: State)
    ensures var r := Submit(AfterSubmit(s, true).form);
            r.verb == "POST" && r.path == "/api/results"
    ensures Submit(AfterSubmit(s, false).form) == Submit(s.form)
  {
    ResetThenSubmitCreates(s);
  }

  /** A reset form creates a new result, with four empty fields and no
      image. */
  lemma ResetThenSubmitCreates(s: State)
    ensures var r := Submit(ResetForm(s).form);
            && r.verb == "POST" && r.path == "/api/results"
            && r.parts == [("name", TextPart("")), ("rank", TextPart("")), ("college", TextPart("")), ("year", TextPart(""))]
  {
    var r := Submit(ResetForm(s).form);
    assert r.parts == r.parts[..4];
  }

  /** An edited result is updated in place, carrying its own fields and no
      image, and typing into the form keeps it the same update; only a
      result with id 0, which is falsy, would be created anew instead. */
  lemma EditThenSubmitUpdates(s: State, item: Result, field: string, value: string)
    requires field in Fields - {"image"}
    ensures var r := Submit(HandleEdit(s, item).form);
            && (item.id != 0 ==> r.verb == "PUT" && r.path == "/api/results/" + Text.Decimal(item.id))
            && (item.id == 0 ==> r.verb == "POST")
            && r.parts == [("name", TextPart(ToText(item.name))), ("rank", TextPart(ToText(item.rank))),
                           ("college", TextPart(ToText(item.college))), ("year", TextPart(Text.IntString(item.year)))]
    ensures var r := Submit(HandleChange(HandleEdit(s, item), field, value, None, "").form);
            && (item.id != 0 ==> r.verb == "PUT" && r.path == "/api/results/" + Text.Decimal(item.id))
            && |r.parts| == 4
  {
    var r := Submit(HandleEdit(s, item).form);
    assert r.parts == r.parts[..4];
  }

  /** Resetting after an edit gives back the initial form, whatever was
      edited. */
  lemma ResetUndoesEdit(s: State, item: Result)
    ensures ResetForm(HandleEdit(s, item)).form == Initial.form
    ensures ResetForm(HandleEdit(s, item)).results == s.results
    ensures ResetForm(HandleEdit(s, item)).preview.None?
  {
  }
}
