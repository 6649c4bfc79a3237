/** The testimonials carousel: the fetched testimonials without duplicate
    ids, each with its video and Instagram links rewritten to the
    embeddable form. */
module Testimonials {

  import opened Js
  import opened Dedupe
  import Text

  /** The parts of a parsed `URL` the rewriting reads; `v` is
      `searchParams.get("v")`. */
  datatype Url = Url(hostname: string, pathname: string, v: Option<string>)

  /** The `type` argument. */
  datatype Kind = YouTube | Instagram

  const YouTubeEmbed: string := "https://www.youtube.com/embed"
  const InstagramPost: string := "https://www.instagram.com/p/"

  /** The post id as written: the second-to-last `/`-separated piece of
      the path (`undefined` when the path has no `/`). */
  function PostId(pathname: string): string {
    var parts := Text.Split(pathname, '/');
    if |parts| >= 2 then parts[|parts| - 2] else "undefined"
  }

  /** `convertToEmbed(url, type)`; `parse` is `new URL`, `None` when it
      throws. */
  function ConvertToEmbed(url: Value, kind: Kind, parse: string -> Option<Url>): (r: string)
    ensures !(url.Str? && url.s != "") ==> r == ""
    ensures url.Str? && url.s != "" && parse(Text.Trim(url.s)).None? ==> r == ""
    ensures url.Str? && url.s != "" && parse(Text.Trim(url.s)).Some? ==>
              || r == Text.Trim(url.s)
              || (kind.YouTube? && Text.StartsWith(r, YouTubeEmbed))
              || (kind.Instagram? && Text.StartsWith(r, InstagramPost) && Text.EndsWith(r, "/embed/"))
  {
    if !Truthy(url) || !url.Str? then ""
    else
      var trimmed := Text.Trim(url.s);
      match parse(trimmed)
      case None => ""
      case Some(u) =>
        match kind
        case Instagram =>
          if u.hostname == "www.instagram.com" || u.hostname == "instagram.com" then
            InstagramPost + PostId(u.pathname) + "/embed/"
          else trimmed
        case YouTube =>
          if u.hostname == "youtu.be" then YouTubeEmbed + u.pathname
          else if Text.StartsWith(u.pathname, "/shorts/") then YouTubeEmbed + u.pathname[|"/shorts"|..]
          else if u.v.Some? && u.v.value != "" then YouTubeEmbed + "/" + u.v.value
          else trimmed
  }

  /** The three YouTube forms: a short link keeps its path, a Shorts path
      loses its `/shorts` prefix, and a `v` parameter names the video. */
  lemma YouTubeForms(url: string, parse: string -> Option<Url>, id: string)
    requires url != "" && parse(Text.Trim(url)).Some? && id != ""
    ensures var u := parse(Text.Trim(url)).value;
            u.hostname == "youtu.be" && u.pathname == "/" + id ==>
              ConvertToEmbed(Str(url), YouTube, parse) == YouTubeEmbed + "/" + id
    ensures var u := parse(Text.Trim(url)).value;
            u.hostname != "youtu.be" && u.pathname == "/shorts/" + id ==>
              ConvertToEmbed(Str(url), YouTube, parse) == YouTubeEmbed + "/" + id
    ensures var u := parse(Text.Trim(url)).value;
            u.hostname != "youtu.be" && !Text.StartsWith(u.pathname, "/shorts/") && u.v == Some(id) ==>
              ConvertToEmbed(Str(url), YouTube, parse) == YouTubeEmbed + "/" + id
  {
    var u := parse(Text.Trim(url)).value;
    if u.pathname == "/shorts/" + id {
      assert Text.StartsWith(u.pathname, "/shorts/");
      assert u.pathname[7..] == "/" + id;
    }
  }

  /** The pieces of `/p/<id>` and of `/p/<id>/`. */
  lemma PostPaths(id: string)
    requires '/' !in id
    ensures Text.Split("/p/" + id, '/') == ["", "p", id]
    ensures Text.Split("/p/" + id + "/", '/') == ["", "p", id, ""]
  {
    assert "/p/" + id == [] + ['/'] + ("p" + ['/'] + id);
    assert "/p/" + id + "/" == [] + ['/'] + ("p" + ['/'] + (id + ['/'] + []));
    Text.SplitAtFirst([], "p" + ['/'] + id, '/');
    Text.SplitAtFirst("p", id, '/');
    Text.SplitNoSeparator(id, '/');
    Text.SplitAtFirst([], "p" + ['/'] + (id + ['/'] + []), '/');
    Text.SplitAtFirst("p", id + ['/'] + [], '/');
    Text.SplitAtFirst(id, [], '/');
  }

  /** As written, a post link with a trailing slash embeds its post, but
      the same link without the slash embeds the post called `p`. */
  lemma PostIdNeedsTrailingSlash(id: string)
    requires id != "" && '/' !in id
    ensures PostId("/p/" + id + "/") == id
    ensures PostId("/p/" + id) == "p"
  {
    PostPaths(id);
  }

  /** The post id, corrected: the last non-empty piece of the path. */
  function PostIdFixed(pathname: string): string {
    var parts := Text.Split(pathname, '/');
    if parts[|parts| - 1] != "" then parts[|parts| - 1]
    else if |parts| >= 2 then parts[|parts| - 2]
    else "undefined"
  }

  /** Corrected, both spellings of a post link embed that post, and links
      ending in a slash are read as before. */
  lemma PostIdFixedBothForms(id: string, pathname: string)
    requires id != "" && '/' !in id
    ensures PostIdFixed("/p/" + id + "/") == id
    ensures PostIdFixed("/p/" + id) == id
    ensures Text.EndsWith(pathname, "/") ==> PostIdFixed(pathname) == PostId(pathname)
  {
    PostPaths(id);
    if Text.EndsWith(pathname, "/") {
      var parts := Text.Split(pathname, '/');
      Text.LastPieceAfterLast(pathname, '/');
      Text.SplitCount(pathname, '/');
      var r := Text.AfterLast(pathname, '/');
      assert pathname[|pathname| - 1] == '/';
      assert r == [];
    }
  }

  /** The embed-ready testimonial: the record with the two embed URLs and
      the two flags added. */
  function Prepare(t: Record, parse: string -> Option<Url>): (r: Record)
    ensures r.id == t.id && r.idRef == t.idRef
    ensures Field(r, "hasVideo") == Bool(Truthy(Field(t, "video_link")))
    ensures Field(r, "hasInstagram") == Bool(Truthy(Field(t, "instagram_link")))
  {
    Record(t.id, t.idRef, t.fields
      ["youtubeEmbedUrl" := Str(ConvertToEmbed(Field(t, "video_link"), YouTube, parse))]
      ["instagramEmbedUrl" := Str(ConvertToEmbed(Field(t, "instagram_link"), Instagram, parse))]
      ["hasVideo" := Bool(Truthy(Field(t, "video_link")))]
      ["hasInstagram" := Bool(Truthy(Field(t, "instagram_link")))])
  }

  /** `fetchTestimonials` on a response body `raw`. */
  function Load(raw: seq<Record>, parse: string -> Option<Url>): (r: seq<Record>)
    ensures |r| == |Reduce([], raw)|
    ensures forall k :: 0 <= k < |r| ==> r[k] == Prepare(Reduce([], raw)[k], parse)
  {
    var kept := Reduce([], raw);
    seq(|kept|, k requires 0 <= k < |kept| => Prepare(kept[k], parse))
  }

  /** One testimonial per id, in the order of first appearance, and a flag
      raised exactly when the first record of that id has the link. */
  lemma LoadKeepsFirst(raw: seq<Record>, parse: string -> Option<Url>)
    ensures forall a, b :: 0 <= a < b < |Load(raw, parse)| ==> !SameId(Load(raw, parse)[a], Load(raw, parse)[b])
    ensures |Load(raw, parse)| == |FirstOccurrences(raw)|
    ensures forall k :: 0 <= k < |Load(raw, parse)| ==>
              Field(Load(raw, parse)[k], "hasVideo") == Bool(Truthy(Field(FirstOccurrences(raw)[k], "video_link")))
  {
    ReduceKeepsFirst(raw);
    FirstOccurrencesIds(raw);
  }

  /** The carousel loops only with more than two testimonials (two show at
      a time). */
  function Infinite(count: nat): (b: bool)
    ensures b <==> count > 2
  {
    count > 2
  }

  /** Looping depends on the distinct ids fetched, not on the raw count:
      duplicates of a record do not make the carousel loop. */
  lemma LoopsIffThreeIds(raw: seq<Record>, parse: string -> Option<Url>)
    ensures Infinite(|Load(raw, parse)|) <==> |FirstOccurrences(raw)| > 2
  {
    LoadKeepsFirst(raw, parse);
  }

  /** Three copies of one testimonial show as one, and do not loop. */
  lemma CopiesDoNotLoop(t: Record, parse: string -> Option<Url>)
    requires Primitive(t.id)
    ensures !Infinite(|Load([t, t, t], parse)|)
  {
    var raw := [t, t, t];
    LoopsIffThreeIds(raw, parse);
    assert raw[..2][..1] == [t] && raw[..2] == [t, t];
    assert FirstOccurrences([t]) == [t];
    assert !IsFirst(raw[..2], 1);
    assert !IsFirst(raw, 2);
  }
}
