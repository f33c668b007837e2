/**
 * `/api/articles`: list (full, or condensed and newest first), create with a
 * derived unique slug, and delete by id. The store is passed in and the
 * store after the request is returned next to the reply.
 */
module ArticlesRoute {
  import opened Wrappers
  import opened Seqs
  import opened Http
  import opened Slug
  import opened Articles
  import opened ArticleStoreProperties

  const MissingIdMessage: string := "缺少文章 ID"
  const NotFoundMessage: string := "文章不存在"

  /** The listing: the full stored articles, or the condensed items. */
  datatype ArticlesBody = FullList(articles: seq<Article>) | SimpleList(items: seq<ArticleListItem>)

  /** The request body of a create; a field may be missing. */
  datatype NewArticleBody = NewArticleBody(title: Option<string>, content: Option<string>, publishedAt: Option<string>)

  /** The sort key `new Date(publishedAt).getTime()`, through a date parser. */
  function ByPublished(timeOf: string -> int): ArticleListItem -> int {
    (item: ArticleListItem) => timeOf(item.publishedAt)
  }

  /** GET: with `simple=true`, the condensed items newest first; otherwise
      every stored article as stored. */
  function Get(articles: seq<Article>, simple: Option<string>, timeOf: string -> int): (r: Response<ArticlesBody>)
    ensures r.Reply? && r.status == StatusOk
    ensures simple == Some("true") ==>
              && r.body.SimpleList?
              && SortedDesc(r.body.items, ByPublished(timeOf))
              && multiset(r.body.items) == multiset(GetArticleListItems(articles))
    ensures simple != Some("true") ==> r.body == FullList(articles)
  {
    if simple == Some("true") then
      Reply(StatusOk, SimpleList(SortDesc(GetArticleListItems(articles), ByPublished(timeOf))))
    else
      Reply(StatusOk, FullList(articles))
  }

  /** Stores a new article whose slug is derived from its title and made
      unique against the stored slugs. */
  function CreateFromTitle(articles: seq<Article>, title: string, content: string, publishedAt: string,
                           id: string, now: string): (r: (Article, seq<Article>))
    ensures r.1 == articles + [r.0]
    ensures r.0 == Article(id, title, r.0.slug, content, 0, publishedAt, now, now)
    ensures r.0.slug !in Slugs(articles)
    ensures exists k: nat :: r.0.slug == Candidate(Slugify(title), k)
                        && forall j :: 0 <= j < k ==> Candidate(Slugify(title), j) in Slugs(articles)
    ensures r.0.slug == GenerateUniqueSlug(articles, Slugify(title))
    ensures SlugsUnique(articles) ==> SlugsUnique(r.1)
  {
    var base := Slugify(title);
    var draft := ArticleDraft(title, GenerateUniqueSlug(articles, base), content, publishedAt);
    var created := CreateArticle(articles, draft, id, now);
    if SlugsUnique(articles) then
      CreateWithGeneratedSlugKeepsSlugsUnique(articles, base, draft, id, now);
      created
    else created
  }

  /** POST: rejects a falsy title or content; otherwise creates the article,
      dated `publishedAt` when given and otherwise by the route's own clock
      reading `routeNow`; the store stamps creation and update with its
      later reading `storeNow`. */
  function Post(articles: seq<Article>, body: NewArticleBody, id: string, routeNow: string, storeNow: string)
    : (r: (Response<Article>, seq<Article>))
    ensures (!Truthy(body.title) || !Truthy(body.content)) <==> r.0 == Fail(StatusBadRequest, MissingTitleOrContent)
    ensures r.0.Fail? ==> r.1 == articles
    ensures r.0.Reply? ==>
              && r.0.status == StatusCreated
              && r.1 == articles + [r.0.body]
              && r.0.body.title == body.title.value
              && r.0.body.content == body.content.value
              && r.0.body.publishedAt == (if Truthy(body.publishedAt) then body.publishedAt.value else routeNow)
              && r.0.body.createdAt == storeNow && r.0.body.updatedAt == storeNow
              && r.0.body.viewCount == 0
              && r.0.body.slug !in Slugs(articles)
              && r.0.body.slug == GenerateUniqueSlug(articles, Slugify(body.title.value))
    ensures SlugsUnique(articles) ==> SlugsUnique(r.1)
  {
    if !Truthy(body.title) || !Truthy(body.content) then
      (Fail(StatusBadRequest, MissingTitleOrContent), articles)
    else
      var publishedAt := if Truthy(body.publishedAt) then body.publishedAt.value else routeNow;
      var created := CreateFromTitle(articles, body.title.value, body.content.value, publishedAt, id, storeNow);
      (Reply(StatusCreated, created.0), created.1)
  }

  /** DELETE: a missing id is a bad request, an unknown id is not found;
      otherwise every article with that id is removed. */
  function Delete(articles: seq<Article>, id: Option<string>): (r: (Response<bool>, seq<Article>))
    ensures !Truthy(id) <==> r.0 == Fail(StatusBadRequest, MissingIdMessage)
    ensures Truthy(id) ==> (r.0 == Fail(StatusNotFound, NotFoundMessage) <==> !HasId(articles, id.value))
    ensures r.0.Fail? ==> r.1 == articles
    ensures r.0.Reply? ==> r.0 == Reply(StatusOk, true) && r.1 == WithoutId(articles, id.value)
  {
    if !Truthy(id) then (Fail(StatusBadRequest, MissingIdMessage), articles)
    else
      var deleted := DeleteArticle(articles, id.value);
      if !deleted.0 then (Fail(StatusNotFound, NotFoundMessage), articles)
      else (Reply(StatusOk, true), deleted.1)
  }

  /** Deleting the same id twice: the second request finds nothing. */
  lemma DeleteTwice(articles: seq<Article>, id: string)
    requires id != ""
    ensures var first := Delete(articles, Some(id));
            Delete(first.1, Some(id)).0 == Fail(StatusNotFound, NotFoundMessage)
  {
    var first := Delete(articles, Some(id));
    DeleteThenFind(articles, id);
    assert !HasId(first.1, id);
  }

  /** A create then a delete of the new id restores the store, when the id
      was unused. */
  lemma CreateThenDelete(articles: seq<Article>, body: NewArticleBody, id: string, routeNow: string, storeNow: string)
    requires id != "" && !HasId(articles, id)
    ensures var created := Post(articles, body, id, routeNow, storeNow);
            created.0.Reply? ==> Delete(created.1, Some(id)) == (Reply(StatusOk, true), articles)
  {
    var created := Post(articles, body, id, routeNow, storeNow);
    if created.0.Reply? {
      DeleteAppended(articles, created.0.body, id);
    }
  }

  lemma DeleteAppended(articles: seq<Article>, a: Article, id: string)
    requires id != "" && !HasId(articles, id) && a.id == id
    ensures Delete(articles + [a], Some(id)) == (Reply(StatusOk, true), articles)
  {
    WithoutIdAppend(articles, [a], id);
    WithoutIdUnchanged(articles, id);
    assert WithoutId([a], id) == [];
    assert WithoutId(articles + [a], id) == articles + [];
    assert articles + [] == articles;
    assert (articles + [a])[|articles|].id == id;
    assert HasId(articles + [a], id);
    assert DeleteArticle(articles + [a], id) == (true, articles);
  }

  /** Deleting keeps the stored slugs distinct. */
  lemma DeleteKeepsSlugsUnique(articles: seq<Article>, id: Option<string>)
    requires SlugsUnique(articles)
    ensures SlugsUnique(Delete(articles, id).1)
  {
    if Truthy(id) {
      WithoutIdKeepsSlugsUnique(articles, id.value);
    }
  }
}
