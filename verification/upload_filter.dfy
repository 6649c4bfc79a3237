/** The upload filter shared by the gallery, slider and download routes:
    a request whose URL names the downloads area takes document types, any
    other takes image types, and the decision looks only at the text after
    the last dot of the lower-cased file name. */
module UploadFilter {

  import Text

  /** `limits.fileSize`: 10 MiB. */
  const MaxFileSize: nat := 10 * 1024 * 1024

  const DownloadTypes: seq<string> := ["pdf", "doc", "docx", "ppt", "pptx", "xls", "xlsx", "txt"]
  const ImageTypes: seq<string> := ["jpeg", "jpg", "png", "webp"]

  const DocumentMessage: string := "Only document files (PDF, DOC, DOCX, PPT, PPTX, XLS, XLSX, TXT) are allowed for downloads!"
  const ImageMessage: string := "Only image files (jpg, jpeg, png, webp) are allowed!"

  datatype File = File(originalname: string, mimetype: string)

  datatype Verdict = Accept | Reject(message: string)

  /** The route takes documents when its URL mentions either area. */
  predicate IsDownload(originalUrl: string) {
    Text.Contains(originalUrl, "/downloads") || Text.Contains(originalUrl, "/study-materials")
  }

  /** `name.toLowerCase().split('.').pop()`: the text after the last dot,
      or the whole lower-cased name when it has none. */
  function Extension(name: string): (e: string)
    ensures e == Text.AfterLast(Text.Lower(name), '.')
    ensures '.' !in e && Text.EndsWith(Text.Lower(name), e)
    ensures '.' !in name ==> e == Text.Lower(name)
  {
    var lower := Text.Lower(name);
    var parts := Text.Split(lower, '.');
    Text.LastPieceFacts(lower, '.');
    Text.LowerKeeps(name, '.');
    parts[|parts| - 1]
  }

  /** An alternation without anchors, as `RegExp.prototype.test` runs it:
      some alternative occurs anywhere in the text. */
  predicate Test(alternatives: seq<string>, s: string) {
    exists k :: 0 <= k < |alternatives| && Text.Contains(s, alternatives[k])
  }

  /** `fileFilter` */
  function Filter(originalUrl: string, f: File): (r: Verdict)
    ensures IsDownload(originalUrl) ==>
              (r.Accept? <==> Test(DownloadTypes, Text.AfterLast(Text.Lower(f.originalname), '.')))
    ensures !IsDownload(originalUrl) ==>
              (r.Accept? <==> Test(ImageTypes, Text.AfterLast(Text.Lower(f.originalname), '.')))
    ensures r.Reject? ==> r.message == (if IsDownload(originalUrl) then DocumentMessage else ImageMessage)
  {
    var ext := Extension(f.originalname);
    if IsDownload(originalUrl) then
      if Test(DownloadTypes, ext) then Accept else Reject(DocumentMessage)
    else if Test(ImageTypes, ext) then Accept else Reject(ImageMessage)
  }

  /** The long alternatives add nothing: a download passes exactly when
      its extension contains one of five three-letter names, so any
      extension merely containing one (`pdfx`, `mydoc`) passes too. */
  lemma DownloadAcceptsIff(originalUrl: string, f: File)
    requires IsDownload(originalUrl)
    ensures var e := Extension(f.originalname);
            Filter(originalUrl, f).Accept? <==>
              Text.Contains(e, "pdf") || Text.Contains(e, "doc") || Text.Contains(e, "ppt")
              || Text.Contains(e, "xls") || Text.Contains(e, "txt")
  {
    FiveNames(Extension(f.originalname));
  }

  /** The document alternation matches exactly the strings that contain
      one of its five three-letter names. */
  lemma FiveNames(e: string)
    ensures Test(DownloadTypes, e) <==>
              Text.Contains(e, "pdf") || Text.Contains(e, "doc") || Text.Contains(e, "ppt")
              || Text.Contains(e, "xls") || Text.Contains(e, "txt")
  {
    if Text.Contains(e, "docx") { assert "docx" == "doc" + "x"; Text.ContainsShorter(e, "doc", "x"); }
    if Text.Contains(e, "pptx") { assert "pptx" == "ppt" + "x"; Text.ContainsShorter(e, "ppt", "x"); }
    if Text.Contains(e, "xlsx") { assert "xlsx" == "xls" + "x"; Text.ContainsShorter(e, "xls", "x"); }
    if Text.Contains(e, "pdf") { assert Text.Contains(e, DownloadTypes[0]); }
    if Text.Contains(e, "doc") { assert Text.Contains(e, DownloadTypes[1]); }
    if Text.Contains(e, "ppt") { assert Text.Contains(e, DownloadTypes[3]); }
    if Text.Contains(e, "xls") { assert Text.Contains(e, DownloadTypes[5]); }
    if Text.Contains(e, "txt") { assert Text.Contains(e, DownloadTypes[7]); }
  }

  /** None of the image alternatives occurs in `gif`. */
  lemma GifMatchesNoImageType()
    ensures !Test(ImageTypes, "gif")
  {
    forall k | 0 <= k < |ImageTypes| ensures !Text.Contains("gif", ImageTypes[k]) {
      assert "gif"[0..3] == "gif";
    }
  }

  /** GIF images are turned away on the image routes, whatever the type
      the browser reports. */
  lemma GifRejected(originalUrl: string, f: File, stem: string)
    requires !IsDownload(originalUrl)
    requires Text.Lower(f.originalname) == stem + ".gif"
    ensures Filter(originalUrl, f) == Reject(ImageMessage)
  {
    assert stem + ".gif" == stem + ['.'] + "gif";
    Text.AfterLastOf(stem, "gif", '.');
    GifMatchesNoImageType();
  }

  /** A name without a dot is judged on the whole name: a file called
      `pdf` passes as a document. */
  lemma WholeNameWithoutDot(originalUrl: string, f: File)
    requires IsDownload(originalUrl) && '.' !in f.originalname
    requires Text.Contains(Text.Lower(f.originalname), "pdf")
    ensures Filter(originalUrl, f).Accept?
  {
    assert Text.Contains(Extension(f.originalname), DownloadTypes[0]);
  }

  /** The reported mime type plays no part. */
  lemma MimetypeIgnored(originalUrl: string, f: File, g: File)
    requires f.originalname == g.originalname
    ensures Filter(originalUrl, f) == Filter(originalUrl, g)
  {
  }
}
