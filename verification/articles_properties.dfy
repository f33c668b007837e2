/** How the article-store operations relate to each other and which store
    invariants they keep. */
module ArticleStoreProperties {
  import opened Wrappers
  import opened Articles

  /** The views recorded over all stored articles. */
  function TotalViews(articles: seq<Article>): nat {
    if |articles| == 0 then 0 else articles[0].viewCount + TotalViews(articles[1..])
  }

  lemma {:induction false} TotalViewsUpdate(articles: seq<Article>, i: nat, a: Article)
    requires i < |articles|
    ensures TotalViews(articles[i := a]) == TotalViews(articles) - articles[i].viewCount + a.viewCount
  {
    if i > 0 {
      assert articles[i := a][1..] == articles[1..][i - 1 := a];
      TotalViewsUpdate(articles[1..], i - 1, a);
    }
  }

  /** Recording a view adds exactly one view to the store when the slug is
      known, and none otherwise. */
  lemma IncrementAddsOneView(articles: seq<Article>, slug: string, decode: string -> string)
    ensures var r := IncrementViewCount(articles, slug, decode);
            TotalViews(r.1) == TotalViews(articles) + (if r.0.Some? then 1 else 0)
  {
    var r := IncrementViewCount(articles, slug, decode);
    if r.0.Some? {
      var i: nat :| FirstWithSlug(articles, decode(slug), i) && r.1 == WithView(articles, i);
      TotalViewsUpdate(articles, i, articles[i].(viewCount := articles[i].viewCount + 1));
    }
  }

  /** A created article can be found by its id when that id was unused. */
  lemma CreateThenFind(articles: seq<Article>, draft: ArticleDraft, id: string, now: string)
    requires !HasId(articles, id)
    ensures var r := CreateArticle(articles, draft, id, now);
            GetArticleById(r.1, id) == Some(r.0)
  {
    var r := CreateArticle(articles, draft, id, now);
    var found := GetArticleById(r.1, id);
    assert r.1[|articles|] == r.0;
    if found.Some? {
      var i :| 0 <= i < |r.1| && r.1[i] == found.value && found.value.id == id
               && forall j :: 0 <= j < i ==> r.1[j].id != id;
      assert i == |articles|;
    }
  }

  /** Creating an article under a slug from `generateUniqueSlug` keeps all
      slugs distinct. */
  lemma CreateWithGeneratedSlugKeepsSlugsUnique(articles: seq<Article>, base: string, draft: ArticleDraft, id: string, now: string)
    requires SlugsUnique(articles)
    requires draft.slug == GenerateUniqueSlug(articles, base)
    ensures SlugsUnique(CreateArticle(articles, draft, id, now).1)
  {
    var r := CreateArticle(articles, draft, id, now);
    assert draft.slug !in Slugs(articles);
    forall i, j | 0 <= i < j < |r.1|
      ensures r.1[i].slug != r.1[j].slug
    {
      if j == |articles| {
        assert r.1[i] in articles;
      }
    }
  }

  /** Recording a view never touches a slug. */
  lemma IncrementKeepsSlugs(articles: seq<Article>, slug: string, decode: string -> string)
    ensures var r := IncrementViewCount(articles, slug, decode);
            |r.1| == |articles| && forall i :: 0 <= i < |articles| ==> r.1[i].slug == articles[i].slug
  {}

  /** Renaming never touches a slug: the slug stays what creation made it. */
  lemma UpdateTitleKeepsSlugs(articles: seq<Article>, id: string, newTitle: string, now: string)
    ensures var r := UpdateArticleTitle(articles, id, newTitle, now);
            |r.1| == |articles| && forall i :: 0 <= i < |articles| ==> r.1[i].slug == articles[i].slug
  {}

  /** Deleting keeps the remaining slugs distinct. */
  lemma {:induction false} WithoutIdKeepsSlugsUnique(articles: seq<Article>, id: string)
    requires SlugsUnique(articles)
    ensures SlugsUnique(WithoutId(articles, id))
  {
    if |articles| > 0 {
      WithoutIdKeepsSlugsUnique(articles[1..], id);
      var rest := WithoutId(articles[1..], id);
      if articles[0].id != id {
        forall j | 0 <= j < |rest|
          ensures articles[0].slug != rest[j].slug
        {
          assert rest[j] in articles[1..];
        }
        assert WithoutId(articles, id) == [articles[0]] + rest;
      }
    }
  }

  /** After a delete no article with that id remains. */
  lemma DeleteThenFind(articles: seq<Article>, id: string)
    ensures GetArticleById(DeleteArticle(articles, id).1, id).None?
  {}
}
