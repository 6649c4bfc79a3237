/** The home page slider: the fetched slides without duplicate ids, each
    pointed at its own image endpoint, and slider controls that appear
    only when there is something to slide to. */
module HomeSlider {

  import opened Js
  import opened Dedupe
  import Text

  /** The slide image endpoint for an id, with the fetch time appended to
      defeat caches. */
  function ImageUrl(apiBase: string, id: Value, now: int): string {
    apiBase + "/api/slider/image/" + ToText(id) + "?t=" + Text.IntString(now)
  }

  /** `{...img, imageUrl: ...}` for each kept record. */
  function WithUrls(kept: seq<Record>, apiBase: string, now: int): (r: seq<Record>)
    ensures |r| == |kept|
    ensures forall k :: 0 <= k < |r| ==>
              && r[k].id == kept[k].id && r[k].idRef == kept[k].idRef
              && r[k].fields == kept[k].fields["imageUrl" := Str(ImageUrl(apiBase, kept[k].id, now))]
  {
    seq(|kept|, k requires 0 <= k < |kept| =>
      Record(kept[k].id, kept[k].idRef, kept[k].fields["imageUrl" := Str(ImageUrl(apiBase, kept[k].id, now))]))
  }

  /** `fetchImages` on a response body `raw` at time `now`. */
  function Slides(raw: seq<Record>, apiBase: string, now: int): seq<Record> {
    WithUrls(FilterFirst(raw, |raw|), apiBase, now)
  }

  /** The slides are the first occurrences of the fetched records, in
      order, with distinct ids, no more of them than were fetched, each
      carrying the image URL of its own id; the `findIndex` filter agrees
      with the `reduce` used elsewhere. */
  lemma SlidesAreFirstOccurrences(raw: seq<Record>, apiBase: string, now: int)
    ensures var s := Slides(raw, apiBase, now);
            && |s| == |FirstOccurrences(raw)| <= |raw|
            && (forall k :: 0 <= k < |s| ==> s[k].id == FirstOccurrences(raw)[k].id && s[k].idRef == FirstOccurrences(raw)[k].idRef)
            && (forall a, b :: 0 <= a < b < |s| ==> !SameId(s[a], s[b]))
            && (forall x :: HasId(s, x) <==> HasId(raw, x))
            && (forall k :: 0 <= k < |s| ==> Field(s[k], "imageUrl") == Str(ImageUrl(apiBase, s[k].id, now)))
    ensures FilterFirst(raw, |raw|) == Reduce([], raw)
  {
    FilterKeepsFirst(raw);
    FirstOccurrencesIds(raw);
    SameIdsAsKept(FirstOccurrences(raw), Slides(raw, apiBase, now));
  }

  /** Records position by position with the same ids carry the same ids
      and the same repetitions. */
  lemma SameIdsAsKept(kept: seq<Record>, s: seq<Record>)
    requires |s| == |kept|
    requires forall k :: 0 <= k < |s| ==> s[k].id == kept[k].id && s[k].idRef == kept[k].idRef
    ensures forall x :: HasId(s, x) <==> HasId(kept, x)
    ensures forall a, b :: 0 <= a < b < |s| ==> (SameId(s[a], s[b]) <==> SameId(kept[a], kept[b]))
  {
    forall x ensures HasId(s, x) <==> HasId(kept, x) {
      if HasId(s, x) {
        var j :| 0 <= j < |s| && SameId(s[j], x);
        assert SameId(kept[j], x);
      }
      if HasId(kept, x) {
        var j :| 0 <= j < |kept| && SameId(kept[j], x);
        assert SameId(s[j], x);
      }
    }
  }

  /** What the slider request gives: it fails, its body is not an array
      (so `.filter` throws), or it is a list of records. */
  datatype Response = Failed | NotArray | Rows(raw: seq<Record>)

  /** `fetchImages`: a failed request and a body that is not an array both
      land in the `catch`, which empties the slider; a list becomes its
      first occurrences with their image URLs. */
  function Fetch(response: Response, apiBase: string, now: int): (r: seq<Record>)
    ensures !response.Rows? ==> r == []
    ensures response.Rows? ==>
              && |r| == |FirstOccurrences(response.raw)| <= |response.raw|
              && (forall a, b :: 0 <= a < b < |r| ==> !SameId(r[a], r[b]))
              && (forall x :: HasId(r, x) <==> HasId(response.raw, x))
  {
    match response
    case Rows(raw) =>
      SlidesAreFirstOccurrences(raw, apiBase, now);
      Slides(raw, apiBase, now)
    case _ => []
  }

  /** The slider settings that depend on the data. */
  datatype Settings = Settings(dots: bool, arrows: bool, infinite: bool, autoplay: bool, speed: nat, autoplaySpeed: nat)

  /** Dots, arrows, looping and autoplay all switch on together, exactly
      when there is more than one slide. */
  function SettingsFor(count: nat): (r: Settings)
    ensures r.dots == r.arrows == r.infinite == r.autoplay
    ensures r.autoplay <==> count > 1
    ensures r.speed == 800 && r.autoplaySpeed == 3000
  {
    Settings(count > 1, count > 1, count > 1, count > 1, 800, 3000)
  }

  /** The slider animates exactly when the fetched records carry more than
      one distinct id. */
  lemma SettingsForSlides(raw: seq<Record>, apiBase: string, now: int)
    ensures SettingsFor(|Slides(raw, apiBase, now)|).autoplay <==> |FirstOccurrences(raw)| > 1
  {
    SlidesAreFirstOccurrences(raw, apiBase, now);
  }

  /** Two copies of one image make one still slide. */
  lemma CopiesMakeOneSlide(x: Record, apiBase: string, now: int)
    requires Primitive(x.id)
    ensures |Slides([x, x], apiBase, now)| == 1
    ensures !SettingsFor(|Slides([x, x], apiBase, now)|).autoplay
  {
    var raw := [x, x];
    SlidesAreFirstOccurrences(raw, apiBase, now);
    assert raw[..1] == [x];
    assert FirstOccurrences([x]) == [x];
    assert !IsFirst(raw, 1);
  }
}
