/**
 * `POST /api/upload/image`: accepts a project image of an allowed type and at
 * most 2 MiB, names it from a timestamp, a random tag and the original
 * extension, and replies with its public URL. Writing the file is left out.
 */
module ImageRoute {
  import opened Wrappers
  import opened Text
  import opened Http

  const NoFileMessage: string := "没有找到文件"
  const BadTypeMessage: string := "只支持 JPG、PNG、GIF、WebP 格式的图片"
  const TooLargeMessage: string := "图片大小不能超过 2MB"

  const AllowedTypes: seq<string> := ["image/jpeg", "image/png", "image/gif", "image/webp"]
  const MaxImageSize: nat := 2 * 1024 * 1024

  datatype ImageFile = ImageFile(name: string, mimeType: string, size: nat)

  /** The path without its trailing slashes. */
  function DropTrailingSlashes(path: string): (r: string)
    ensures |r| <= |path| && r == path[..|r|]
    ensures r == [] || r[|r| - 1] != '/'
    ensures forall i :: |r| <= i < |path| ==> path[i] == '/'
  {
    if |path| > 0 && path[|path| - 1] == '/' then DropTrailingSlashes(path[..|path| - 1]) else path
  }

  /** The last path segment. */
  function Basename(path: string): (b: string)
    ensures |b| <= |path|
    ensures forall i :: 0 <= i < |b| ==> b[i] != '/'
  {
    var t := DropTrailingSlashes(path);
    match LastIndexOf(t, '/')
    case None => t
    case Some(i) => t[i + 1..]
  }

  /** POSIX `path.extname`: from the last dot of the last segment to its end;
      empty when the segment has no dot, starts with its only leading dot
      run, or is `..`. */
  function Extname(path: string): (ext: string)
    ensures ext == [] || (ext[0] == '.' && forall i :: 1 <= i < |ext| ==> ext[i] != '.' && ext[i] != '/')
    ensures ext != [] ==> |ext| < |Basename(path)| && Basename(path)[|Basename(path)| - |ext|..] == ext
    ensures var b := Basename(path);
            ext == [] <==> (forall i :: 0 < i < |b| ==> b[i] != '.') || b == ".."
  {
    var b := Basename(path);
    match LastIndexOf(b, '.')
    case None => ""
    case Some(d) => if d == 0 || b == ".." then "" else b[d..]
  }

  /** The public URL of a stored image. */
  function ImageUrl(timestamp: nat, randomTag: string, ext: string): string {
    "/projects/" + ImageFileName(timestamp, randomTag, ext)
  }

  /** The stored file name `project-<timestamp>-<tag><ext>`. */
  function ImageFileName(timestamp: nat, randomTag: string, ext: string): string {
    "project-" + NatToString(timestamp) + "-" + randomTag + ext
  }

  /** POST: the file must be present, then of an allowed type, then within
      the size limit; the type is checked before the size. */
  function Upload(file: Option<ImageFile>, timestamp: nat, randomTag: string): (r: Response<string>)
    ensures file.None? <==> r == Fail(StatusBadRequest, NoFileMessage)
    ensures file.Some? && file.value.mimeType !in AllowedTypes ==> r == Fail(StatusBadRequest, BadTypeMessage)
    ensures file.Some? && file.value.mimeType in AllowedTypes ==>
              (r == Fail(StatusBadRequest, TooLargeMessage) <==> file.value.size > MaxImageSize)
    ensures r.Reply? <==> file.Some? && file.value.mimeType in AllowedTypes && file.value.size <= MaxImageSize
    ensures r.Reply? ==> r == Reply(StatusOk, ImageUrl(timestamp, randomTag, Extname(file.value.name)))
  {
    match file
    case None => Fail(StatusBadRequest, NoFileMessage)
    case Some(f) =>
      if f.mimeType !in AllowedTypes then Fail(StatusBadRequest, BadTypeMessage)
      else if f.size > MaxImageSize then Fail(StatusBadRequest, TooLargeMessage)
      else Reply(StatusOk, ImageUrl(timestamp, randomTag, Extname(f.name)))
  }

  /** The URL starts with the public folder, the timestamp and the tag, and
      ends with the original extension. */
  lemma ImageUrlShape(timestamp: nat, randomTag: string, ext: string)
    ensures var url := ImageUrl(timestamp, randomTag, ext);
            && IsPrefix("/projects/project-" + NatToString(timestamp) + "-" + randomTag, url)
            && |ext| <= |url| && url[|url| - |ext|..] == ext
  {
    var head := "/projects/project-" + NatToString(timestamp) + "-" + randomTag;
    assert ImageUrl(timestamp, randomTag, ext) == head + ext;
  }

  /** The limit is inclusive: exactly 2 MiB is accepted, one byte more is not. */
  lemma SizeLimitInclusive(name: string, timestamp: nat, randomTag: string)
    ensures Upload(Some(ImageFile(name, "image/png", 2097152)), timestamp, randomTag).Reply?
    ensures Upload(Some(ImageFile(name, "image/png", 2097153)), timestamp, randomTag)
            == Fail(StatusBadRequest, TooLargeMessage)
  {}

  /** Images from different instants get different names. */
  lemma FileNamesDiffer(t1: nat, t2: nat, tag: string, ext: string)
    requires t1 != t2
    ensures ImageFileName(t1, tag, ext) != ImageFileName(t2, tag, ext)
  {
    if ImageFileName(t1, tag, ext) == ImageFileName(t2, tag, ext) {
      assert ImageFileName(t1, tag, ext) == "project-" + NatToString(t1) + "-" + (tag + ext);
      assert ImageFileName(t2, tag, ext) == "project-" + NatToString(t2) + "-" + (tag + ext);
      DigitsBeforeDash(NatToString(t1), tag + ext, NatToString(t2), tag + ext);
      NatToStringInjective(t1, t2);
    }
  }

  /** Two all-digit prefixes each followed by a dash cannot differ. */
  lemma DigitsBeforeDash(a: string, x: string, b: string, y: string)
    requires forall i :: 0 <= i < |a| ==> IsDigit(a[i])
    requires forall i :: 0 <= i < |b| ==> IsDigit(b[i])
    requires "project-" + a + "-" + x == "project-" + b + "-" + y
    ensures a == b
  {
    var s := "project-" + a + "-" + x;
    var t := "project-" + b + "-" + y;
    assert s[8..] == a + "-" + x;
    assert t[8..] == b + "-" + y;
    FirstDashAfterDigits(a, x);
    FirstDashAfterDigits(b, y);
    assert (a + "-" + x)[..|a|] == a;
    assert (b + "-" + y)[..|b|] == b;
  }

  lemma FirstDashAfterDigits(a: string, x: string)
    requires forall i :: 0 <= i < |a| ==> IsDigit(a[i])
    ensures IndexOf(a + "-" + x, "-") == Some(|a|)
  {
    var u := a + "-" + x;
    assert OccursAt(u, "-", |a|) by {
      assert u[|a|..|a| + 1] == "-";
    }
    forall j: nat | j < |a|
      ensures !OccursAt(u, "-", j)
    {
      assert u[j..j + 1] == [a[j]];
    }
  }

  /** A name without slashes is its own last segment. */
  lemma BasenameOfPlainName(name: string)
    requires forall i :: 0 <= i < |name| ==> name[i] != '/'
    ensures Basename(name) == name
  {}

  /** A name without a dot has no extension. */
  lemma ExtnameWithoutDot(name: string)
    requires forall i :: 0 <= i < |name| ==> name[i] != '/' && name[i] != '.'
    ensures Extname(name) == ""
  {
    BasenameOfPlainName(name);
  }

  /** A hidden-file name, a dot then no other dot, has no extension. */
  lemma ExtnameOfHiddenName(rest: string)
    requires forall i :: 0 <= i < |rest| ==> rest[i] != '/' && rest[i] != '.'
    ensures Extname("." + rest) == ""
  {
    var name := "." + rest;
    BasenameOfPlainName(name);
    assert forall i :: 1 <= i < |name| ==> name[i] == rest[i - 1];
  }

  /** `..` has no extension. */
  lemma ExtnameOfParent()
    ensures Extname("..") == ""
  {
    BasenameOfPlainName("..");
  }

  /** Otherwise the extension runs from the last dot to the end. */
  lemma ExtnameOfStem(stem: string, ext: string)
    requires |stem| > 0 && stem[0] != '.'
    requires forall i :: 0 <= i < |stem| ==> stem[i] != '/'
    requires forall i :: 0 <= i < |ext| ==> ext[i] != '/' && ext[i] != '.'
    ensures Extname(stem + "." + ext) == "." + ext
  {
    var name := stem + "." + ext;
    BasenameOfPlainName(name);
    assert forall i :: |stem| < i < |name| ==> name[i] == ext[i - |stem| - 1];
    assert name[|stem|] == '.';
    assert LastIndexOf(name, '.') == Some(|stem|);
    assert name[|stem|..] == "." + ext;
  }
}
