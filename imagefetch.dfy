/** The decisions of `download_image`: when an image URL yields a stored
    file, which extension it gets, and the relative path it is stored
    under. The HTTP exchange and the byte copy are abstracted to their
    outcome. */
module ImageFetch {
  import opened Wrappers
  import opened Text

  /** A character `slugify` can produce: a lower-case ASCII letter, a digit
      or a hyphen. */
  predicate SlugChar(c: char) {
    ('a' <= c <= 'z') || ('0' <= c <= '9') || c == '-'
  }

  type Slug = s: string | forall i :: 0 <= i < |s| ==> SlugChar(s[i])

  /** `slugify` from python-slugify, taken as given. */
  type Slugify = string -> Slug

  /** What fetching a URL amounts to: the request raised (connection error,
      timeout, bad URL), or a reply with its status, its `Content-Type`
      header if any, and whether writing its body to disk succeeded. */
  datatype Response = Unreachable | Reply(status: int, contentType: Option<string>, written: bool)

  type Fetch = string -> Response

  /** `raise_for_status()` raises for 4xx and 5xx statuses. */
  predicate RaisesForStatus(status: int) {
    400 <= status < 600
  }

  /** The lower-cased `Content-Type`, `""` when the header is absent. */
  function ContentType(contentType: Option<string>): string {
    Lower(contentType.GetOr([]))
  }

  /** The extension table, tried in order. */
  function Extension(ct: string): (r: string)
    ensures r in {"jpg", "png", "gif"}
    ensures Contains(ct, "jpeg") || Contains(ct, "jpg") ==> r == "jpg"
    ensures !Contains(ct, "jpeg") && !Contains(ct, "jpg") && Contains(ct, "png") ==> r == "png"
    ensures r == "png" ==> Contains(ct, "png")
    ensures !Contains(ct, "jpeg") && !Contains(ct, "jpg") && !Contains(ct, "png") && Contains(ct, "gif") ==> r == "gif"
    ensures r == "gif" ==> Contains(ct, "gif") && !Contains(ct, "png")
  {
    if Contains(ct, "jpeg") || Contains(ct, "jpg") then "jpg"
    else if Contains(ct, "png") then "png"
    else if Contains(ct, "gif") then "gif"
    else "jpg"
  }

  /** `url.split("/")[-1]` */
  function LastSegment(url: string): (r: string)
    ensures '/' !in r
    ensures r == url || exists p :: url == p + "/" + r
  {
    var parts := Split(url, "/");
    SplitPiecesFree(url, "/");
    ContainsChar(parts[|parts| - 1], '/');
    SplitLastPiece(url, "/");
    if |parts| > 1 then
      assert url == Join(parts[..|parts| - 1], "/") + "/" + parts[|parts| - 1];
      parts[|parts| - 1]
    else parts[|parts| - 1]
  }

  /** The file name: the slug of the URL's last segment, or of the hotel
      name when that slug is empty, then the extension. */
  function FileName(url: string, hotelName: string, ext: string, slugify: Slugify): string {
    var base := slugify(LastSegment(url));
    (if base != [] then base else slugify(hotelName)) + "." + ext
  }

  /** `os.path.relpath(os.path.join(MEDIA_ROOT, "menu_images", slug, file),
      MEDIA_ROOT)`: an empty slug adds no directory level. */
  function RelativePath(slug: Slug, file: string): string {
    "menu_images/" + (if slug != [] then slug + "/" else []) + file
  }

  /** `download_image(url, hotel_name)`: the relative path of the stored
      image, or `None`. */
  function Download(url: string, hotelName: string, fetch: Fetch, slugify: Slugify): (r: Option<string>)
    ensures url == [] ==> r == None
    ensures url != [] && (fetch(url).Unreachable? || RaisesForStatus(fetch(url).status)) ==> r == None
  {
    if url == [] then None
    else match fetch(url)
      case Unreachable => None
      case Reply(status, contentType, written) =>
        if RaisesForStatus(status) then None
        else
          var ct := ContentType(contentType);
          if !Contains(ct, "image") then None
          else
            var ext := Extension(ct);
            var file := FileName(url, hotelName, ext, slugify);
            if !written then None
            else Some(Replace(RelativePath(slugify(hotelName), file), "\\", "/"))
  }

  /** The reply that produces a stored file. */
  predicate Accepted(url: string, fetch: Fetch) {
    url != [] && fetch(url).Reply? && !RaisesForStatus(fetch(url).status)
    && Contains(ContentType(fetch(url).contentType), "image") && fetch(url).written
  }

  lemma NoBackslashIn(s: string)
    requires '\\' !in s
    ensures Replace(s, "\\", "/") == s
  {
    ContainsChar(s, '\\');
    ReplaceWithoutOccurrence(s, "\\", "/");
  }

  /** The outcome of `download_image` in full: a file is stored exactly for
      an accepted reply, at `menu_images/<hotel slug>/<file>`, and the
      backslash rewrite never changes the path. */
  lemma DownloadOutcome(url: string, hotelName: string, fetch: Fetch, slugify: Slugify)
    ensures Download(url, hotelName, fetch, slugify).Some? <==> Accepted(url, fetch)
    ensures Accepted(url, fetch) ==>
      var ext := Extension(ContentType(fetch(url).contentType));
      Download(url, hotelName, fetch, slugify)
        == Some(RelativePath(slugify(hotelName), FileName(url, hotelName, ext, slugify)))
  {
    if Accepted(url, fetch) {
      var ext := Extension(ContentType(fetch(url).contentType));
      var slug := slugify(hotelName);
      var file := FileName(url, hotelName, ext, slugify);
      var base := slugify(LastSegment(url));
      var b := if base != [] then base else slug;
      var p := RelativePath(slug, file);
      assert file == b + "." + ext;
      PathFree(slug, b, ext);
      NoBackslashIn(p);
    }
  }

  /** A path built from slugs and a table extension holds no backslash. */
  lemma PathFree(slug: Slug, b: Slug, ext: string)
    requires ext in {"jpg", "png", "gif"}
    ensures '\\' !in RelativePath(slug, b + "." + ext)
  {
    var file := b + "." + ext;
    assert '\\' !in file by {
      forall i | 0 <= i < |file| ensures file[i] != '\\' {
        if i < |b| { assert file[i] == b[i] && SlugChar(b[i]); }
        else if i > |b| { assert file[i] == ext[i - |b| - 1]; }
      }
    }
    var dir := if slug != [] then slug + "/" else [];
    assert '\\' !in dir by {
      forall i | 0 <= i < |dir| ensures dir[i] != '\\' {
        if i < |slug| { assert SlugChar(slug[i]); }
      }
    }
    var p := RelativePath(slug, file);
    assert p == "menu_images/" + dir + file;
    forall i | 0 <= i < |p| ensures p[i] != '\\' {
      if i < 12 { assert p[i] == "menu_images/"[i]; }
      else if i < 12 + |dir| { assert p[i] == dir[i - 12]; }
      else { assert p[i] == file[i - 12 - |dir|]; }
    }
  }

  /** Whatever is stored came from a reply whose content type names an
      image. */
  lemma StoredFileIsImage(url: string, hotelName: string, fetch: Fetch, slugify: Slugify)
    requires Download(url, hotelName, fetch, slugify).Some?
    ensures fetch(url).Reply? && Contains(ContentType(fetch(url).contentType), "image")
  {
    DownloadOutcome(url, hotelName, fetch, slugify);
  }
}
