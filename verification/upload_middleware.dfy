/** The stricter image upload middleware: a five-type allowlist checked
    against both the reported mime type and the name's ending, a refusal of
    names that could walk out of the upload directory, a random stored name
    that keeps the original extension, and the mapping of upload errors to
    400 replies. */
module UploadMiddleware {

  import Text
  import opened Js

  /** `limits`: 5 MiB per file, one file, 1 MiB per text field. */
  const MaxFileSize: nat := 5 * 1024 * 1024
  const MaxFiles: nat := 1
  const MaxFieldSize: nat := 1024 * 1024

  const AllowedMimeTypes: seq<string> := ["image/jpeg", "image/jpg", "image/png", "image/webp", "image/gif"]
  const AllowedExtensions: seq<string> := ["jpg", "jpeg", "png", "webp", "gif"]

  const TypeMessage: string := "Only image files (jpg, jpeg, png, webp, gif) are allowed!"
  const NameMessage: string := "Invalid filename detected!"

  datatype File = File(originalname: string, mimetype: string)

  datatype Verdict = Accept | Reject(message: string)

  /** `/\.(jpg|jpeg|png|webp|gif)$/i`: the name ends with a dot and one of
      the extensions, in any ASCII case. */
  predicate HasImageExtension(name: string) {
    exists k :: 0 <= k < |AllowedExtensions| && Text.EndsWith(Text.Lower(name), "." + AllowedExtensions[k])
  }

  /** A name that could name a parent or another directory. */
  predicate Suspicious(name: string) {
    Text.Contains(name, "..") || '/' in name || '\\' in name
  }

  /** `fileFilter`: the type check comes first, so a name failing both is
      reported as the wrong type. */
  function Filter(f: File): (r: Verdict)
    ensures r.Accept? <==>
              f.mimetype in AllowedMimeTypes && HasImageExtension(f.originalname) && !Suspicious(f.originalname)
    ensures r.Reject? ==>
              (r.message == NameMessage <==> f.mimetype in AllowedMimeTypes && HasImageExtension(f.originalname))
    ensures r.Reject? ==> r.message == NameMessage || r.message == TypeMessage
  {
    if f.mimetype !in AllowedMimeTypes || !HasImageExtension(f.originalname) then Reject(TypeMessage)
    else if Suspicious(f.originalname) then Reject(NameMessage)
    else Accept
  }

  /** An accepted name has no directory part and lower-cases to a stem,
      a dot and one of the five extensions. */
  lemma AcceptedShape(f: File)
    requires Filter(f).Accept?
    ensures '/' !in f.originalname && '\\' !in f.originalname
    ensures exists k, stem :: 0 <= k < |AllowedExtensions|
              && Text.Lower(f.originalname) == stem + "." + AllowedExtensions[k]
    ensures Text.AfterLast(Text.Lower(f.originalname), '.') in AllowedExtensions
  {
    var lower := Text.Lower(f.originalname);
    var k :| 0 <= k < |AllowedExtensions| && Text.EndsWith(lower, "." + AllowedExtensions[k]);
    var ext := AllowedExtensions[k];
    var stem := lower[..|lower| - |ext| - 1];
    assert lower == stem + "." + ext;
    assert stem + "." + ext == stem + ['.'] + ext;
    Text.AfterLastOf(stem, ext, '.');
  }

  /** The path with its trailing slashes removed. */
  function DropTrailingSlashes(p: string): (r: string)
    ensures Text.StartsWith(p, r)
    ensures r == [] || r[|r| - 1] != '/'
    ensures forall i :: |r| <= i < |p| ==> p[i] == '/'
    decreases |p|
  {
    if p != [] && p[|p| - 1] == '/' then DropTrailingSlashes(p[..|p| - 1]) else p
  }

  /** The extension of one path segment: from its last dot to the end,
      except that a dot opening the segment (and the segment `..`) makes
      no extension. */
  function SegmentExt(b: string): (e: string)
    ensures e == "" || (e[0] == '.' && Text.EndsWith(b, e) && '.' !in e[1..])
    ensures '.' !in b ==> e == ""
  {
    if '.' !in b then ""
    else
      var after := Text.AfterLast(b, '.');
      var dot := |b| - |after| - 1;
      if dot == 0 || b == ".." then ""
      else
        assert b[dot..][1..] == after;
        b[dot..]
  }

  /** `path.extname` on POSIX: the extension of the last segment, trailing
      slashes ignored. */
  function Extname(p: string): (e: string)
    ensures e == "" || (e[0] == '.' && '.' !in e[1..] && '/' !in e)
  {
    var base := Text.AfterLast(DropTrailingSlashes(p), '/');
    var e := SegmentExt(base);
    assert e != "" ==> e == base[|base| - |e|..];
    e
  }

  /** A name without slashes is one segment. */
  lemma ExtnameOfSegment(p: string)
    requires '/' !in p
    ensures Extname(p) == SegmentExt(p)
  {
    if p != [] {
      assert p[|p| - 1] in p;
    }
    assert DropTrailingSlashes(p) == p;
  }

  /** A segment of a non-empty stem, a dot and a dot-free ending has that
      ending as its extension. */
  lemma SegmentExtOfStem(stem: string, ext: string)
    requires '.' !in ext && stem != "" && stem + "." + ext != ".."
    ensures SegmentExt(stem + "." + ext) == "." + ext
  {
    var p := stem + "." + ext;
    assert p == stem + ['.'] + ext;
    Text.AfterLastOf(stem, ext, '.');
    assert p[|stem|] == '.';
    assert p[|stem|..] == "." + ext;
  }

  /** A name without slashes, of a non-empty stem, a dot and a dot-free
      ending, has that ending as its extension. */
  lemma ExtnameOfStem(stem: string, ext: string)
    requires '/' !in stem + "." + ext && '.' !in ext
    requires stem != "" && stem + "." + ext != ".."
    ensures Extname(stem + "." + ext) == "." + ext
  {
    ExtnameOfSegment(stem + "." + ext);
    SegmentExtOfStem(stem, ext);
  }

  /** A name whose only dot opens it has no extension at all. */
  lemma ExtnameOfDotfile(ext: string)
    requires '/' !in ext && '.' !in ext
    ensures Extname("." + ext) == ""
  {
    var p := "." + ext;
    assert p == [] + ['.'] + ext;
    assert '/' !in p by {
      assert forall i :: 0 < i < |p| ==> p[i] == ext[i - 1];
    }
    ExtnameOfSegment(p);
    Text.AfterLastOf([], ext, '.');
  }

  /** The stored file name, as written: the random part and the lower-cased
      `path.extname` of the original name. */
  function StoredName(random: string, originalname: string): (r: string)
    ensures Text.StartsWith(r, random)
    ensures r[|random|..] == Text.Lower(Extname(originalname))
  {
    random + Text.Lower(Extname(originalname))
  }

  /** The five extensions are lower-case letters only. */
  lemma ExtensionLetters(k: nat)
    requires k < |AllowedExtensions|
    ensures forall i :: 0 <= i < |AllowedExtensions[k]| ==> Text.IsLower(AllowedExtensions[k][i])
  {
  }

  /** A dot followed by lower-case letters is an acceptable image name
      when it spells one of the extensions, and is not suspicious. */
  lemma DotNameAccepted(mime: string, k: nat)
    requires mime in AllowedMimeTypes && k < |AllowedExtensions|
    ensures Filter(File("." + AllowedExtensions[k], mime)).Accept?
  {
    var ext := AllowedExtensions[k];
    var name := "." + ext;
    ExtensionLetters(k);
    assert forall i :: 0 < i < |name| ==> name[i] == ext[i - 1];
    assert Text.Lower(name) == name;
    assert Text.EndsWith(Text.Lower(name), "." + AllowedExtensions[k]);
    assert '/' !in name && '\\' !in name;
    assert !Text.Contains(name, "..") by {
      forall i | 0 <= i <= |name| - 2 ensures !Text.OccursAt(name, "..", i) {
        assert name[i..i + 2][1] == name[i + 1];
      }
    }
  }

  /** As written, a file named only by its extension (`.png`, reported as
      `image/png`) passes the filter, yet is stored with no extension. */
  lemma DotfileStoredBare(random: string, mime: string, k: nat)
    requires mime in AllowedMimeTypes && k < |AllowedExtensions|
    ensures Filter(File("." + AllowedExtensions[k], mime)).Accept?
    ensures StoredName(random, "." + AllowedExtensions[k]) == random
  {
    DotNameAccepted(mime, k);
    var ext := AllowedExtensions[k];
    ExtensionLetters(k);
    assert '/' !in ext && '.' !in ext;
    ExtnameOfDotfile(ext);
  }

  /** The stored file name, corrected: the random part, a dot and the
      lower-cased text after the name's last dot. */
  function StoredNameFixed(random: string, originalname: string): string {
    random + "." + Text.AfterLast(Text.Lower(originalname), '.')
  }

  /** Corrected, every accepted file is stored under one of the five
      extensions. */
  lemma FixedKeepsImageExtension(random: string, f: File)
    requires Filter(f).Accept?
    ensures exists k :: 0 <= k < |AllowedExtensions| && StoredNameFixed(random, f.originalname) == random + "." + AllowedExtensions[k]
  {
    AcceptedShape(f);
    var ext := Text.AfterLast(Text.Lower(f.originalname), '.');
    var k :| 0 <= k < |AllowedExtensions| && AllowedExtensions[k] == ext;
    assert StoredNameFixed(random, f.originalname) == random + "." + AllowedExtensions[k];
  }

  /** Lower-casing a stem, a dot and a dot-free ending lower-cases each
      part and leaves the ending after the last dot. */
  lemma LowerStemExt(stem: string, ext: string)
    requires '.' !in ext
    ensures Text.Lower("." + ext) == "." + Text.Lower(ext)
    ensures Text.AfterLast(Text.Lower(stem + "." + ext), '.') == Text.Lower(ext)
  {
    Text.LowerAppend(stem + ".", ext);
    Text.LowerAppend(stem, ".");
    Text.LowerAppend(".", ext);
    Text.LowerKeeps(ext, '.');
    assert Text.Lower(".") == ".";
    assert Text.Lower(stem + "." + ext) == Text.Lower(stem) + ['.'] + Text.Lower(ext);
    Text.AfterLastOf(Text.Lower(stem), Text.Lower(ext), '.');
  }

  /** The stored name of a slash-free name with a stem before its last
      dot ends in that dot and the lower-cased ending. */
  lemma StoredNameOfStem(random: string, stem: string, ext: string)
    requires '/' !in stem + "." + ext && '.' !in ext
    requires stem != "" && stem + "." + ext != ".."
    ensures StoredName(random, stem + "." + ext) == random + "." + Text.Lower(ext)
  {
    var name := stem + "." + ext;
    var x := Extname(name);
    assert x == "." + ext by {
      ExtnameOfStem(stem, ext);
    }
    var e := Text.Lower(ext);
    assert Text.Lower(x) == "." + e by {
      LowerDot(ext);
    }
    assert StoredName(random, name) == random + ("." + e);
    AppendAssoc(random, ".", e);
  }

  lemma AppendAssoc(a: string, b: string, c: string)
    ensures a + (b + c) == a + b + c
  {
  }

  /** Lower-casing keeps a leading dot. */
  lemma LowerDot(ext: string)
    ensures Text.Lower("." + ext) == "." + Text.Lower(ext)
  {
    Text.LowerAppend(".", ext);
    assert Text.Lower(".") == ".";
  }

  /** Both stored names agree on a slash-free name with a stem before its
      last dot. */
  lemma StemNamesAgree(random: string, stem: string, ext: string)
    requires '/' !in stem + "." + ext && '.' !in ext
    requires stem != "" && stem + "." + ext != ".."
    ensures StoredNameFixed(random, stem + "." + ext) == StoredName(random, stem + "." + ext)
  {
    StoredNameOfStem(random, stem, ext);
    LowerStemExt(stem, ext);
  }

  /** The correction changes nothing for an accepted name with a stem
      before its last dot. */
  lemma FixedAgreesWithStem(random: string, f: File, stem: string, ext: string)
    requires Filter(f).Accept?
    requires f.originalname == stem + "." + ext && stem != "" && '.' !in ext
    ensures StoredNameFixed(random, f.originalname) == StoredName(random, f.originalname)
  {
    var name := f.originalname;
    assert '/' !in name && !Text.Contains(name, "..");
    assert name != ".." by {
      if name == ".." { assert Text.OccursAt(name, "..", 0); }
    }
    StemNamesAgree(random, stem, ext);
  }

  /** What reaches `handleUploadError`. */
  datatype Error =
    | MulterError(code: string)   // raised by the upload library itself
    | Thrown(message: Value)      // any other error, such as a filter refusal

  datatype Outcome = Respond(status: nat, error: Value) | PassOn

  /** `handleUploadError` */
  function HandleUploadError(e: Error): (r: Outcome)
    ensures e.MulterError? ==> r.Respond? && r.status == 400
    ensures e.MulterError? && e.code == "LIMIT_FILE_SIZE" ==> r.error == Str("File too large. Maximum size is 5MB.")
    ensures e.MulterError? && e.code == "LIMIT_FILE_COUNT" ==> r.error == Str("Too many files. Only 1 file allowed.")
    ensures e.MulterError? && e.code != "LIMIT_FILE_SIZE" && e.code != "LIMIT_FILE_COUNT" ==>
              r.error == Str("File upload error.")
    ensures e.Thrown? ==> (r.PassOn? <==> !Truthy(e.message))
    ensures e.Thrown? && Truthy(e.message) ==> r == Respond(400, e.message)
  {
    match e
    case MulterError(code) =>
      if code == "LIMIT_FILE_SIZE" then Respond(400, Str("File too large. Maximum size is 5MB."))
      else if code == "LIMIT_FILE_COUNT" then Respond(400, Str("Too many files. Only 1 file allowed."))
      else Respond(400, Str("File upload error."))
    case Thrown(message) =>
      if Truthy(message) then Respond(400, message) else PassOn
  }

  /** Every refusal of the filter reaches the client as a 400 carrying the
      refusal's text; nothing from the filter is passed on. */
  lemma FilterRefusalReported(f: File)
    requires Filter(f).Reject?
    ensures HandleUploadError(Thrown(Str(Filter(f).message))) == Respond(400, Str(Filter(f).message))
  {
    assert |TypeMessage| > 0 && |NameMessage| > 0;
  }
}
