/**
 * `POST /api/articles/upload`: a multipart request carries a `.md` or
 * `.docx` file (and optionally a title); any other request is read as JSON
 * with a title and a content. Either way an article is created.
 */
module UploadRoute {
  import opened Wrappers
  import opened Text
  import opened Http
  import opened Heading
  import opened Slug
  import opened Articles
  import opened ArticlesRoute

  const NoFileMessage: string := "请选择文件"
  const PdfMessage: string := "PDF 文件暂时不支持，请使用 .md 或 .docx 格式"
  const UnsupportedMessage: string := "不支持的文件格式，请上传 .md 或 .docx 文件"
  const UploadFailedPrefix: string := "上传文章失败: "

  /** An uploaded file: its name, its contents read as text, and the raw text
      the Word-document extractor yields (or the message it fails with). */
  datatype UploadedFile = UploadedFile(name: string, text: string, docxText: Result<string, string>)

  datatype UploadForm = UploadForm(file: Option<UploadedFile>, title: Option<string>)

  datatype UploadJson = UploadJson(title: Option<string>, content: Option<string>)

  /** `"." + name.split('.').pop()`: a dot and what follows the last dot of
      the name; a name without a dot is taken whole. */
  function UploadExtension(name: string): (ext: string)
    ensures |ext| >= 1 && ext[0] == '.'
    ensures forall i :: 1 <= i < |ext| ==> ext[i] != '.'
    ensures LastIndexOf(name, '.').Some? ==> |ext| <= |name| && name[|name| - |ext|..] == ext
    ensures LastIndexOf(name, '.').None? ==> ext == "." + name
  {
    match LastIndexOf(name, '.')
    case None => "." + name
    case Some(i) => "." + name[i + 1..]
  }

  /** `name.replace(extension, '')`: the name with the first occurrence of
      its extension removed. */
  function DefaultTitle(name: string): (title: string)
    ensures |title| <= |name|
    ensures IndexOf(name, UploadExtension(name)).Some? ==>
              var i := IndexOf(name, UploadExtension(name)).value;
              i <= |title| && name == title[..i] + UploadExtension(name) + title[i..]
    ensures IndexOf(name, UploadExtension(name)).None? ==> title == name
  {
    var ext := UploadExtension(name);
    if IndexOf(name, ext).Some? then
      ReplaceFirstRoundTrip(name, ext, "");
      ReplaceFirst(name, ext, "")
    else ReplaceFirst(name, ext, "")
  }

  /** The title of a Markdown upload: the given title when truthy, else the
      trimmed first heading, else the name without its extension. */
  function MarkdownTitle(content: string, customTitle: Option<string>, name: string): (title: string)
    ensures Truthy(customTitle) ==> title == customTitle.value
    ensures !Truthy(customTitle) && HeadingText(content).Some? ==> title == Trim(HeadingText(content).value)
    ensures !Truthy(customTitle) && HeadingText(content).None? ==> title == DefaultTitle(name)
  {
    if Truthy(customTitle) then customTitle.value
    else match HeadingText(content)
      case Some(group) => Trim(group)
      case None => DefaultTitle(name)
  }

  /** Stores the article and replies 201 with it. The route reads the clock
      for `publishedAt` (`routeNow`) and the store reads it again for the
      creation and update times (`storeNow`). */
  function Save(articles: seq<Article>, title: string, content: string, id: string, routeNow: string, storeNow: string)
    : (r: (Response<Article>, seq<Article>))
    ensures r.0.Reply? && r.0.status == StatusCreated && r.1 == articles + [r.0.body]
    ensures r.0.body.title == title && r.0.body.content == content && r.0.body.publishedAt == routeNow
    ensures r.0.body.createdAt == storeNow && r.0.body.updatedAt == storeNow
    ensures r.0.body.slug !in Slugs(articles)
    ensures r.0.body.slug == GenerateUniqueSlug(articles, Slugify(title))
    ensures SlugsUnique(articles) ==> SlugsUnique(r.1)
  {
    var created := CreateFromTitle(articles, title, content, routeNow, id, storeNow);
    (Reply(StatusCreated, created.0), created.1)
  }

  /** What every stored upload carries besides its title and content: the
      slug derived from its title and made unique against `articles`, the
      route's clock reading as publication date, the store's as creation and
      update date, and no views. */
  predicate Stamped(articles: seq<Article>, a: Article, routeNow: string, storeNow: string) {
    && a.slug == GenerateUniqueSlug(articles, Slugify(a.title))
    && a.publishedAt == routeNow
    && a.createdAt == storeNow && a.updatedAt == storeNow
    && a.viewCount == 0
  }

  /** The multipart branch. */
  function UploadFile(articles: seq<Article>, form: UploadForm, id: string, routeNow: string, storeNow: string)
    : (r: (Response<Article>, seq<Article>))
    ensures form.file.None? <==> r.0 == Fail(StatusBadRequest, NoFileMessage)
    ensures r.0.Fail? ==> r.1 == articles
    ensures r.0.Reply? ==> r.0.status == StatusCreated && r.1 == articles + [r.0.body]
    ensures r.0.Reply? ==> Stamped(articles, r.0.body, routeNow, storeNow)
    ensures form.file.Some? ==>
              var f := form.file.value;
              var ext := UploadExtension(f.name);
              && (ext == ".md" ==>
                     && r.0.Reply?
                     && r.0.body.title == MarkdownTitle(f.text, form.title, f.name)
                     && r.0.body.content == Trim(f.text))
              && (ext == ".docx" ==> (r.0.Reply? <==> f.docxText.Success?))
              && (ext == ".docx" && f.docxText.Success? ==>
                     && r.0.body.title == (if Truthy(form.title) then form.title.value else DefaultTitle(f.name))
                     && r.0.body.content == Trim(f.docxText.value))
              && (ext == ".docx" && f.docxText.Failure? ==>
                     r.0 == Fail(StatusServerError, UploadFailedPrefix + f.docxText.error))
              && (ext == ".pdf" ==> r.0 == Fail(StatusBadRequest, PdfMessage))
              && (ext != ".md" && ext != ".docx" && ext != ".pdf" ==> r.0 == Fail(StatusBadRequest, UnsupportedMessage))
    ensures SlugsUnique(articles) ==> SlugsUnique(r.1)
  {
    match form.file
    case None => (Fail(StatusBadRequest, NoFileMessage), articles)
    case Some(f) =>
      var ext := UploadExtension(f.name);
      var title := if Truthy(form.title) then form.title.value else DefaultTitle(f.name);
      if ext == ".md" then
        Save(articles, MarkdownTitle(f.text, form.title, f.name), Trim(f.text), id, routeNow, storeNow)
      else if ext == ".docx" then
        match f.docxText
        case Failure(message) => (Fail(StatusServerError, UploadFailedPrefix + message), articles)
        case Success(text) => Save(articles, title, Trim(text), id, routeNow, storeNow)
      else if ext == ".pdf" then (Fail(StatusBadRequest, PdfMessage), articles)
      else (Fail(StatusBadRequest, UnsupportedMessage), articles)
  }

  /** The JSON branch: the content is stored exactly as sent. */
  function UploadText(articles: seq<Article>, body: UploadJson, id: string, routeNow: string, storeNow: string)
    : (r: (Response<Article>, seq<Article>))
    ensures (!Truthy(body.title) || !Truthy(body.content)) <==> r.0 == Fail(StatusBadRequest, MissingTitleOrContent)
    ensures r.0.Fail? ==> r.1 == articles
    ensures r.0.Reply? ==> && r.0.status == StatusCreated && r.1 == articles + [r.0.body]
                           && r.0.body.title == body.title.value && r.0.body.content == body.content.value
    ensures r.0.Reply? ==> Stamped(articles, r.0.body, routeNow, storeNow)
    ensures SlugsUnique(articles) ==> SlugsUnique(r.1)
  {
    if !Truthy(body.title) || !Truthy(body.content) then
      (Fail(StatusBadRequest, MissingTitleOrContent), articles)
    else
      Save(articles, body.title.value, body.content.value, id, routeNow, storeNow)
  }

  /** The handler: a content type mentioning `multipart/form-data` selects
      the file branch; anything else, a missing header included, the JSON one. */
  function Post(articles: seq<Article>, contentType: Option<string>, form: UploadForm, json: UploadJson,
                id: string, routeNow: string, storeNow: string): (r: (Response<Article>, seq<Article>))
    ensures IsInfix("multipart/form-data", contentType.GetOr("")) ==> r == UploadFile(articles, form, id, routeNow, storeNow)
    ensures !IsInfix("multipart/form-data", contentType.GetOr("")) ==> r == UploadText(articles, json, id, routeNow, storeNow)
  {
    if IsInfix("multipart/form-data", contentType.GetOr("")) then UploadFile(articles, form, id, routeNow, storeNow)
    else UploadText(articles, json, id, routeNow, storeNow)
  }

  /** A file named without any dot is read as having the extension "." plus
      its whole name: a file called `md` is accepted as Markdown. */
  lemma DotlessNameIsItsOwnExtension(name: string)
    requires forall i :: 0 <= i < |name| ==> name[i] != '.'
    ensures UploadExtension(name) == "." + name
    ensures UploadExtension("md") == ".md"
  {
    assert LastIndexOf("md", '.').None?;
  }

  /** In a Markdown upload without a given title, a leading heading names the
      article instead of the file name. */
  lemma HeadingNamesMarkdownUpload(articles: seq<Article>, name: string, heading: string, body: string,
                                   id: string, routeNow: string, storeNow: string)
    requires UploadExtension(name) == ".md"
    requires |heading| > 0 && !IsWhitespace(heading[0]) && !IsWhitespace(heading[|heading| - 1])
    requires forall i :: 0 <= i < |heading| ==> !IsLineTerminator(heading[i])
    requires body == [] || IsLineTerminator(body[0])
    ensures var f := UploadedFile(name, "# " + heading + body, Failure(""));
            var r := UploadFile(articles, UploadForm(Some(f), None), id, routeNow, storeNow);
            r.0.Reply? && r.0.body.title == heading
  {
    assert IsWhitespace(' ');
    assert "# " + heading + body == "#" + " " + heading + body;
    HeadingCaptured(" ", heading, body);
    TrimKeeps(heading);
  }
}
