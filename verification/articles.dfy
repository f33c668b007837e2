/**
 * The article store. The JSON file is an in-memory sequence of articles;
 * every operation is a pure function from the stored sequence to its result
 * and, for the mutating ones, the sequence written back. Ids and timestamps
 * that the source takes from the clock are parameters.
 */
module Articles {
  import opened Wrappers
  import opened Text
  import opened Seqs

  datatype Article = Article(
    id: string,
    title: string,
    slug: string,
    content: string,
    viewCount: nat,
    publishedAt: string,
    createdAt: string,
    updatedAt: string)

  /** The summary of an article shown in lists. */
  datatype ArticleListItem = ArticleListItem(id: string, title: string, slug: string, viewCount: nat, publishedAt: string)

  /** What a caller supplies to create an article. */
  datatype ArticleDraft = ArticleDraft(title: string, slug: string, content: string, publishedAt: string)

  /** No two stored articles share a slug. */
  predicate SlugsUnique(articles: seq<Article>) {
    forall i, j :: 0 <= i < j < |articles| ==> articles[i].slug != articles[j].slug
  }

  /** Some stored article has id `id`. */
  predicate HasId(articles: seq<Article>, id: string) {
    exists i :: 0 <= i < |articles| && articles[i].id == id
  }

  /** `i` is the position of the first article with slug `slug`. */
  predicate FirstWithSlug(articles: seq<Article>, slug: string, i: nat) {
    i < |articles| && articles[i].slug == slug && forall j :: 0 <= j < i ==> articles[j].slug != slug
  }

  /** `i` is the position of the first article with id `id`. */
  predicate FirstWithId(articles: seq<Article>, id: string, i: nat) {
    i < |articles| && articles[i].id == id && forall j :: 0 <= j < i ==> articles[j].id != id
  }

  /** `getArticleListItems`: every article projected onto its list fields, in stored order. */
  function GetArticleListItems(articles: seq<Article>): (items: seq<ArticleListItem>)
    ensures |items| == |articles|
    ensures forall i :: 0 <= i < |items| ==>
              && items[i].id == articles[i].id && items[i].title == articles[i].title
              && items[i].slug == articles[i].slug && items[i].viewCount == articles[i].viewCount
              && items[i].publishedAt == articles[i].publishedAt
  {
    seq(|articles|, i requires 0 <= i < |articles| =>
      var a := articles[i]; ArticleListItem(a.id, a.title, a.slug, a.viewCount, a.publishedAt))
  }

  /** `getArticleBySlug`: the first article whose slug is the decoded `slug`, or none. */
  function GetArticleBySlug(articles: seq<Article>, slug: string, decode: string -> string): (r: Option<Article>)
    ensures r.None? <==> forall i :: 0 <= i < |articles| ==> articles[i].slug != decode(slug)
    ensures r.Some? ==> exists i :: 0 <= i < |articles| && articles[i] == r.value && r.value.slug == decode(slug)
                                    && forall j :: 0 <= j < i ==> articles[j].slug != decode(slug)
  {
    var decoded := decode(slug);
    Find(articles, (a: Article) => a.slug == decoded)
  }

  /** `getArticleById`: the first article with id `id`, or none. */
  function GetArticleById(articles: seq<Article>, id: string): (r: Option<Article>)
    ensures r.None? <==> !HasId(articles, id)
    ensures r.Some? ==> exists i :: 0 <= i < |articles| && articles[i] == r.value && r.value.id == id
                                    && forall j :: 0 <= j < i ==> articles[j].id != id
  {
    Find(articles, (a: Article) => a.id == id)
  }

  /** `createArticle`: appends one article built from the draft, with the
      given id, zero views and both timestamps `now`. */
  function CreateArticle(articles: seq<Article>, draft: ArticleDraft, id: string, now: string): (r: (Article, seq<Article>))
    ensures r.1 == articles + [r.0]
    ensures r.0 == Article(id, draft.title, draft.slug, draft.content, 0, draft.publishedAt, now, now)
  {
    var article := Article(id, draft.title, draft.slug, draft.content, 0, draft.publishedAt, now, now);
    (article, articles + [article])
  }

  /** The store with one more view on article `i`. */
  function WithView(articles: seq<Article>, i: nat): seq<Article>
    requires i < |articles|
  {
    articles[i := articles[i].(viewCount := articles[i].viewCount + 1)]
  }

  /** `incrementViewCount`: one more view on the first article with the decoded
      slug, which is returned; with no such article nothing is written. */
  function IncrementViewCount(articles: seq<Article>, slug: string, decode: string -> string): (r: (Option<Article>, seq<Article>))
    ensures r.0.None? <==> forall i :: 0 <= i < |articles| ==> articles[i].slug != decode(slug)
    ensures r.0.None? ==> r.1 == articles
    ensures r.0.Some? ==>
              exists i: nat :: FirstWithSlug(articles, decode(slug), i) && r.1 == WithView(articles, i) && r.0.value == r.1[i]
  {
    var decoded := decode(slug);
    match FirstIndex(articles, (a: Article) => a.slug == decoded)
    case None => (None, articles)
    case Some(i) =>
      var updated := WithView(articles, i);
      assert FirstWithSlug(articles, decoded, i);
      (Some(updated[i]), updated)
  }

  /** The articles whose id is not `id`, in their stored order. */
  function WithoutId(articles: seq<Article>, id: string): (r: seq<Article>)
    ensures forall a :: a in r <==> a in articles && a.id != id
    ensures |r| <= |articles|
    ensures |r| == |articles| <==> !HasId(articles, id)
  {
    if |articles| == 0 then []
    else
      var rest := WithoutId(articles[1..], id);
      assert forall i :: 1 <= i < |articles| ==> articles[i] == articles[1..][i - 1];
      if articles[0].id == id then rest else [articles[0]] + rest
  }

  /** Filtering distributes over concatenation, so the survivors keep their order. */
  lemma WithoutIdAppend(a: seq<Article>, b: seq<Article>, id: string)
    ensures WithoutId(a + b, id) == WithoutId(a, id) + WithoutId(b, id)
  {
    WithoutIdIsOthers(a + b, id);
    WithoutIdIsOthers(a, id);
    WithoutIdIsOthers(b, id);
    OthersAppend(a, b, id);
  }

  /** The bare recursion of `WithoutId`, without its contract. */
  function Others(articles: seq<Article>, id: string): seq<Article> {
    if |articles| == 0 then []
    else (if articles[0].id == id then [] else [articles[0]]) + Others(articles[1..], id)
  }

  lemma {:induction false} WithoutIdIsOthers(articles: seq<Article>, id: string)
    ensures WithoutId(articles, id) == Others(articles, id)
  {
    if |articles| > 0 {
      WithoutIdIsOthers(articles[1..], id);
    }
  }

  lemma {:induction false} OthersAppend(a: seq<Article>, b: seq<Article>, id: string)
    ensures Others(a + b, id) == Others(a, id) + Others(b, id)
  {
    if |a| > 0 {
      assert (a + b)[1..] == a[1..] + b;
      OthersAppend(a[1..], b, id);
      var head: seq<Article> := if a[0].id == id then [] else [a[0]];
      Associative(head, Others(a[1..], id), Others(b, id));
    } else {
      assert a + b == b;
    }
  }

  /** `deleteArticle`: removes every article with id `id`; reports false, and
      writes nothing, when the length did not change. */
  function DeleteArticle(articles: seq<Article>, id: string): (r: (bool, seq<Article>))
    ensures !r.0 <==> !HasId(articles, id)
    ensures !r.0 ==> r.1 == articles
    ensures r.0 ==> r.1 == WithoutId(articles, id)
    ensures forall a :: a in r.1 <==> a in articles && a.id != id
  {
    var filtered := WithoutId(articles, id);
    if |filtered| == |articles| then
      assert filtered == articles by {
        WithoutIdUnchanged(articles, id);
      }
      (false, articles)
    else (true, filtered)
  }

  /** Nothing is filtered out when no article has the id. */
  lemma {:induction false} WithoutIdUnchanged(articles: seq<Article>, id: string)
    requires !HasId(articles, id)
    ensures WithoutId(articles, id) == articles
  {
    if |articles| > 0 {
      WithoutIdUnchanged(articles[1..], id);
      assert articles == [articles[0]] + articles[1..];
    }
  }

  /** `updateArticleTitle`: renames the first article with id `id` and stamps
      it `now`; with no such article nothing is written. */
  function UpdateArticleTitle(articles: seq<Article>, id: string, newTitle: string, now: string): (r: (Option<Article>, seq<Article>))
    ensures r.0.None? <==> !HasId(articles, id)
    ensures r.0.None? ==> r.1 == articles
    ensures r.0.Some? ==>
              exists i: nat :: && FirstWithId(articles, id, i)
                               && r.1 == articles[i := articles[i].(title := newTitle, updatedAt := now)]
                               && r.0.value == r.1[i]
  {
    match FirstIndex(articles, (a: Article) => a.id == id)
    case None => (None, articles)
    case Some(i) =>
      var updated := articles[i := articles[i].(title := newTitle, updatedAt := now)];
      assert FirstWithId(articles, id, i);
      (Some(updated[i]), updated)
  }

  /** The slugs in use. */
  function Slugs(articles: seq<Article>): set<string> {
    set a | a in articles :: a.slug
  }

  /** The `k`-th slug `generateUniqueSlug` tries: `base`, then `base-1`, `base-2`, ... */
  function Candidate(base: string, k: nat): (c: string)
    ensures IsPrefix(base, c)
    ensures c == base <==> k == 0
    ensures k > 0 ==> c[|base|] == '-' && c[|base| + 1..] == NatToString(k)
  {
    if k == 0 then base else base + "-" + NatToString(k)
  }

  /** Different attempts are different slugs. */
  lemma CandidateInjective(base: string, j: nat, k: nat)
    requires Candidate(base, j) == Candidate(base, k)
    ensures j == k
  {
    if j > 0 && k > 0 {
      assert Candidate(base, j)[|base| + 1..] == NatToString(j);
      assert Candidate(base, k)[|base| + 1..] == NatToString(k);
      NatToStringInjective(j, k);
    }
  }

  /** The first `n` attempts, as a set. */
  function Candidates(base: string, n: nat): set<string> {
    if n == 0 then {} else Candidates(base, n - 1) + {Candidate(base, n - 1)}
  }

  /** The first `n` attempts are exactly the candidates numbered below `n`. */
  lemma {:induction false} CandidatesMembers(base: string, n: nat)
    ensures forall s :: s in Candidates(base, n) <==> exists k :: 0 <= k < n && s == Candidate(base, k)
  {
    if n > 0 {
      CandidatesMembers(base, n - 1);
    }
  }

  /** The first `n` attempts are `n` different slugs. */
  lemma {:induction false} CandidatesSize(base: string, n: nat)
    ensures |Candidates(base, n)| == n
  {
    if n > 0 {
      CandidatesSize(base, n - 1);
      CandidatesMembers(base, n - 1);
      if Candidate(base, n - 1) in Candidates(base, n - 1) {
        var k :| 0 <= k < n - 1 && Candidate(base, n - 1) == Candidate(base, k);
        CandidateInjective(base, n - 1, k);
      }
    }
  }

  lemma {:induction false} SlugsSize(articles: seq<Article>)
    ensures |Slugs(articles)| <= |articles|
  {
    if |articles| > 0 {
      SlugsSize(articles[1..]);
      assert Slugs(articles) == Slugs(articles[1..]) + {articles[0].slug} by {
        assert articles == [articles[0]] + articles[1..];
      }
    }
  }

  lemma SubsetSize<T>(a: set<T>, b: set<T>)
    requires a <= b
    ensures |a| <= |b|
  {
    assert b == a + (b - a);
  }

  /** If the first `n` attempts are all taken, there are at least `n` articles. */
  lemma TakenAttemptsBounded(articles: seq<Article>, base: string, n: nat)
    requires forall k :: 0 <= k < n ==> Candidate(base, k) in Slugs(articles)
    ensures n <= |Slugs(articles)| <= |articles|
  {
    CandidatesSize(base, n);
    CandidatesMembers(base, n);
    forall s | s in Candidates(base, n)
      ensures s in Slugs(articles)
    {
      var k :| 0 <= k < n && s == Candidate(base, k);
    }
    SubsetSize(Candidates(base, n), Slugs(articles));
    SlugsSize(articles);
  }

  /** The `while` loop of `generateUniqueSlug`, entered at attempt `counter`. */
  function UniqueSlugFrom(articles: seq<Article>, base: string, counter: nat): (slug: string)
    requires forall k :: 0 <= k < counter ==> Candidate(base, k) in Slugs(articles)
    ensures slug !in Slugs(articles)
    ensures exists k: nat :: counter <= k && slug == Candidate(base, k)
                        && forall j :: 0 <= j < k ==> Candidate(base, j) in Slugs(articles)
    decreases |Slugs(articles)| - counter
  {
    var slug := Candidate(base, counter);
    if slug in Slugs(articles) then
      TakenAttemptsBounded(articles, base, counter + 1);
      UniqueSlugFrom(articles, base, counter + 1)
    else slug
  }

  /** `generateUniqueSlug`: `base` if no article uses it, otherwise `base-k`
      for the least `k >= 1` that no article uses. */
  function GenerateUniqueSlug(articles: seq<Article>, base: string): (slug: string)
    ensures slug !in Slugs(articles)
    ensures exists k: nat :: slug == Candidate(base, k)
                        && forall j :: 0 <= j < k ==> Candidate(base, j) in Slugs(articles)
    ensures base !in Slugs(articles) ==> slug == base
  {
    UniqueSlugFrom(articles, base, 0)
  }
}
