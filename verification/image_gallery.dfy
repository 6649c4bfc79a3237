/** Gallery images stored inline as data URLs (section 3 of RFC 2397):
    the upload builds `data:<mime>;base64,<payload>`, and serving an image
    takes the string apart again with `/^data:(.+);base64,(.+)$/`. */
module ImageGallery {

  import opened Js
  import Text
  import Base64

  const Scheme: string := "data:"
  const Marker: string := ";base64,"

  /** The stored string for an upload. */
  function DataUrl(mime: string, bytes: seq<Base64.byte>): (s: string)
    ensures s == Scheme + mime + Marker + Base64.Encode(bytes)
    ensures Text.StartsWith(s, Scheme)
  {
    Scheme + mime + Marker + Base64.Encode(bytes)
  }

  predicate NoLineBreak(s: string) {
    forall i :: 0 <= i < |s| ==> !Text.IsLineTerminator(s[i])
  }

  /** `rest` (what follows `data:`) splits at `i` into a non-empty mime
      type, the marker and a non-empty payload. */
  predicate SplitsAt(rest: string, i: int) {
    1 <= i && i + |Marker| < |rest| && rest[i..i + |Marker|] == Marker
  }

  /** The last split point at or below `i`, as the greedy first group
      picks it. */
  function LastSplit(rest: string, i: int): (r: Option<nat>)
    requires i < |rest|
    ensures r.Some? ==> SplitsAt(rest, r.value) && r.value <= i
    ensures r.Some? ==> forall j :: r.value < j <= i ==> !SplitsAt(rest, j)
    ensures r.None? <==> forall j :: j <= i ==> !SplitsAt(rest, j)
    decreases i
  {
    if i < 1 then None
    else if SplitsAt(rest, i) then Some(i)
    else LastSplit(rest, i - 1)
  }

  /** The regular expression's match: the mime type and the payload, or
      `None` when it does not match. `.` matches no line terminator, so a
      line break anywhere after the scheme defeats the match. */
  function Match(s: string): (r: Option<(string, string)>)
    ensures r.Some? ==> Text.StartsWith(s, Scheme)
    ensures r.Some? ==>
              && r.value.0 != "" && r.value.1 != ""
              && s == Scheme + r.value.0 + Marker + r.value.1
              && NoLineBreak(r.value.0) && NoLineBreak(r.value.1)
    ensures r.Some? ==> forall j :: |r.value.0| < j ==> !SplitsAt(s[|Scheme|..], j)
    ensures Text.StartsWith(s, Scheme) && NoLineBreak(s[|Scheme|..]) ==>
              (r.None? <==> forall j :: !SplitsAt(s[|Scheme|..], j))
  {
    if !Text.StartsWith(s, Scheme) || !NoLineBreak(s[|Scheme|..]) then None
    else
      var rest := s[|Scheme|..];
      if |rest| == 0 then None
      else match LastSplit(rest, |rest| - 1)
        case None => None
        case Some(i) =>
          assert s == Scheme + rest[..i] + Marker + rest[i + |Marker|..];
          Some((rest[..i], rest[i + |Marker|..]))
  }

  /** A mime type the round trip holds for: non-empty and on one line. */
  predicate GoodMime(mime: string) {
    mime != "" && NoLineBreak(mime)
  }

  /** For any non-empty upload with a one-line mime type, serving the
      stored string gives back the mime type and the exact bytes. */
  lemma MatchDataUrl(mime: string, bytes: seq<Base64.byte>)
    requires GoodMime(mime) && bytes != []
    ensures Match(DataUrl(mime, bytes)) == Some((mime, Base64.Encode(bytes)))
    ensures Base64.Decode(Match(DataUrl(mime, bytes)).value.1) == bytes
  {
    var e := Base64.Encode(bytes);
    MatchParts(mime, e);
    Base64.DecodeEncode(bytes);
  }

  /** A one-line mime type and a non-empty one-line payload free of `;`
      come back out of the regular expression as they went in. */
  lemma MatchParts(mime: string, e: string)
    requires GoodMime(mime) && e != [] && NoLineBreak(e)
    requires forall i :: 0 <= i < |e| ==> e[i] != ';'
    ensures Match(Scheme + mime + Marker + e) == Some((mime, e))
  {
    var s := Scheme + mime + Marker + e;
    var rest := mime + Marker + e;
    assert s[|Scheme|..] == rest;
    assert Text.StartsWith(s, Scheme);
    assert NoLineBreak(rest) by {
      forall i | 0 <= i < |rest| ensures !Text.IsLineTerminator(rest[i]) {
        if i < |mime| {
          assert rest[i] == mime[i];
        } else if i >= |mime| + |Marker| {
          assert rest[i] == e[i - |mime| - |Marker|];
        }
      }
    }
    OnlySplit(mime, e);
    var k := LastSplit(rest, |rest| - 1);
    assert k == Some(|mime|);
    assert rest[..|mime|] == mime && rest[|mime| + |Marker|..] == e;
  }

  /** The marker after the mime type is the last one. */
  lemma OnlySplit(mime: string, e: string)
    requires mime != "" && e != []
    requires forall i :: 0 <= i < |e| ==> e[i] != ';'
    ensures SplitsAt(mime + Marker + e, |mime|)
    ensures forall j :: |mime| < j ==> !SplitsAt(mime + Marker + e, j)
  {
    var rest := mime + Marker + e;
    assert rest[|mime|..|mime| + |Marker|] == Marker;
    forall j | |mime| < j ensures !SplitsAt(rest, j) {
      if 1 <= j && j + |Marker| < |rest| {
        assert rest[j..j + |Marker|][0] == rest[j];
        if j < |mime| + |Marker| {
          assert rest[j] == Marker[j - |mime|];
        } else {
          assert rest[j] == e[j - |mime| - |Marker|];
        }
      }
    }
  }

  /** An empty upload is stored but can never be served: nothing follows
      the marker for the second group to match. */
  lemma EmptyUploadUnservable(mime: string)
    requires forall i :: 0 <= i < |mime| ==> mime[i] != ';'
    ensures Match(DataUrl(mime, [])).None?
  {
    var s := DataUrl(mime, []);
    var rest := s[|Scheme|..];
    assert rest == mime + Marker;
    forall j ensures !SplitsAt(rest, j) {
      if 1 <= j && j + |Marker| < |rest| {
        assert rest[j..j + |Marker|][0] == rest[j] == mime[j];
      }
    }
  }

  datatype Image = Image(id: nat, categoryId: Value, imageUrl: string)

  datatype File = File(mimetype: string, buffer: seq<Base64.byte>)

  datatype Reply = Failure(status: nat, message: string) | Stored(image: Image) | Served(contentType: string, body: seq<Base64.byte>)

  /** `uploadImage`, the next id being `nextId`. */
  function Upload(images: seq<Image>, nextId: nat, categoryId: Value, file: Option<File>): (r: (Reply, seq<Image>))
    ensures !Truthy(categoryId) ==> r == (Failure(400, "Category ID is required"), images)
    ensures Truthy(categoryId) && file.None? ==> r == (Failure(400, "Image file is required"), images)
    ensures Truthy(categoryId) && file.Some? ==>
              var img := Image(nextId, categoryId, DataUrl(file.value.mimetype, file.value.buffer));
              r == (Stored(img), images + [img])
  {
    if !Truthy(categoryId) then (Failure(400, "Category ID is required"), images)
    else match file
      case None => (Failure(400, "Image file is required"), images)
      case Some(f) =>
        var img := Image(nextId, categoryId, DataUrl(f.mimetype, f.buffer));
        (Stored(img), images + [img])
  }

  function Find(images: seq<Image>, id: string): (r: Option<nat>)
    ensures r.Some? ==> r.value < |images| && Text.Decimal(images[r.value].id) == id
    ensures r.Some? ==> forall i :: 0 <= i < r.value ==> Text.Decimal(images[i].id) != id
    ensures r.None? <==> forall i :: 0 <= i < |images| ==> Text.Decimal(images[i].id) != id
  {
    if images == [] then None
    else if Text.Decimal(images[0].id) == id then Some(0)
    else match Find(images[1..], id)
      case None => None
      case Some(i) => Some(i + 1)
  }

  /** `getImageById`: 404 for no such image, 400 for a stored string that
      is not a base64 data URL, otherwise the decoded bytes under the
      stored mime type. */
  function GetImage(images: seq<Image>, id: string): (r: Reply)
    ensures Find(images, id).None? ==> r == Failure(404, "Image not found")
    ensures Find(images, id).Some? ==>
              var url := images[Find(images, id).value].imageUrl;
              && (Match(url).None? ==> r == Failure(400, "Invalid image data"))
              && (Match(url).Some? ==> r == Served(Match(url).value.0, Base64.Decode(Match(url).value.1)))
  {
    match Find(images, id)
    case None => Failure(404, "Image not found")
    case Some(i) =>
      var url := images[i].imageUrl;
      if !Text.StartsWith(url, Scheme) then Failure(400, "Invalid image data")
      else match Match(url)
        case None => Failure(400, "Invalid image data")
        case Some(parts) => Served(parts.0, Base64.Decode(parts.1))
  }

  /** `deleteImage`: 404 for no such image, otherwise that row removed. */
  function DeleteImage(images: seq<Image>, id: string): (r: (nat, seq<Image>))
    ensures Find(images, id).None? ==> r == (404, images)
    ensures Find(images, id).Some? ==>
              var i := Find(images, id).value;
              r == (200, images[..i] + images[i + 1..])
  {
    match Find(images, id)
    case None => (404, images)
    case Some(i) => (200, images[..i] + images[i + 1..])
  }

  /** No two images share an id, as the auto-increment key ensures. */
  ghost predicate UniqueIds(images: seq<Image>) {
    forall a, b :: 0 <= a < b < |images| ==> images[a].id != images[b].id
  }

  /** With unique ids, a delete leaves one image fewer and the deleted id
      is then not found. */
  lemma DeleteRemovesIt(images: seq<Image>, id: string)
    requires UniqueIds(images) && Find(images, id).Some?
    ensures var r := DeleteImage(images, id).1;
            && |r| == |images| - 1
            && Find(r, id).None?
            && GetImage(r, id) == Failure(404, "Image not found")
  {
    var i := Find(images, id).value;
    var r := DeleteImage(images, id).1;
    assert r == images[..i] + images[i + 1..];
    forall k | 0 <= k < |r| ensures Text.Decimal(r[k].id) != id {
      var src := if k < i then k else k + 1;
      assert r[k] == images[src];
      Text.DecimalInjective(images[src].id, images[i].id);
    }
  }

  /** A delete serves every other id as before. */
  lemma DeleteKeepsOthers(images: seq<Image>, id: string, other: string)
    requires other != id
    ensures GetImage(DeleteImage(images, id).1, other) == GetImage(images, other)
  {
    match Find(images, id)
    case None =>
    case Some(i) =>
      FindSkipping(images, i, other);
      var r := images[..i] + images[i + 1..];
      match Find(images, other)
      case None =>
      case Some(j) =>
        assert r[if j < i then j else j - 1] == images[j];
  }

  /** Removing an image that does not carry `other` moves the lookup of
      `other` by at most one place, to the same image. */
  lemma FindSkipping(images: seq<Image>, i: nat, other: string)
    requires i < |images| && Text.Decimal(images[i].id) != other
    ensures var r := images[..i] + images[i + 1..];
            match Find(images, other)
            case None => Find(r, other).None?
            case Some(j) => Find(r, other) == Some(if j < i then j else j - 1)
  {
    var r := images[..i] + images[i + 1..];
    match Find(images, other)
    case None =>
      forall m | 0 <= m < |r| ensures Text.Decimal(r[m].id) != other {
        assert r[m] == images[if m < i then m else m + 1];
      }
    case Some(j) =>
      var k := if j < i then j else j - 1;
      assert r[k] == images[j];
      forall m | 0 <= m < k ensures Text.Decimal(r[m].id) != other {
        assert r[m] == images[if m < i then m else m + 1];
      }
      FindIsFirst(r, k, other);
  }

  /** The lookup returns the first image with that id. */
  lemma FindIsFirst(images: seq<Image>, k: nat, id: string)
    requires k < |images| && Text.Decimal(images[k].id) == id
    requires forall m :: 0 <= m < k ==> Text.Decimal(images[m].id) != id
    ensures Find(images, id) == Some(k)
  {
  }

  /** What an upload stores is what is served for its id, whenever the
      file is non-empty and its type is on one line. */
  lemma UploadThenServe(images: seq<Image>, nextId: nat, categoryId: Value, f: File)
    requires Truthy(categoryId) && GoodMime(f.mimetype) && f.buffer != []
    requires forall i :: 0 <= i < |images| ==> images[i].id != nextId
    ensures GetImage(Upload(images, nextId, categoryId, Some(f)).1, Text.Decimal(nextId))
         == Served(f.mimetype, f.buffer)
  {
    var after := Upload(images, nextId, categoryId, Some(f)).1;
    assert after == images + [Image(nextId, categoryId, DataUrl(f.mimetype, f.buffer))];
    assert Text.Decimal(after[|images|].id) == Text.Decimal(nextId);
    forall i | 0 <= i < |images| ensures Text.Decimal(after[i].id) != Text.Decimal(nextId) {
      Text.DecimalInjective(after[i].id, nextId);
    }
    assert Find(after, Text.Decimal(nextId)) == Some(|images|);
    MatchDataUrl(f.mimetype, f.buffer);
  }
}
