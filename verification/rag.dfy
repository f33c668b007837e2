/**
 * The retrieval-augmented-generation helpers around the chunker: indexing
 * articles into a vector store, filtering vector-search hits, and building
 * the augmented prompt. The embedding service and the vector store are
 * oracles passed in as functions; each may fail.
 */
module Rag {
  import opened Wrappers
  import opened Text
  import opened Articles
  import opened Chunker
  import opened Seqs

  type Vector = seq<real>

  /** Number of hits requested when the caller gives none. */
  const DefaultTopK: nat := 3

  // ---------------------------------------------------------------------
  // Indexing
  // ---------------------------------------------------------------------

  datatype ChunkMetadata = ChunkMetadata(articleId: string, articleTitle: string, chunkIndex: nat, text: string)

  /** A document for the vector store. `vector` is absent when the embedding
      service returned fewer vectors than texts (the source then reads
      `undefined`). */
  datatype VectorDocument = VectorDocument(id: string, vector: Option<Vector>, metadata: ChunkMetadata)

  datatype IndexOutcome =
    | NoChunks                               // the article produced no chunk: a warning, nothing uploaded
    | Upserted(docs: seq<VectorDocument>)     // one batch upload of these documents

  datatype IndexError = ArticleNotFound | EmbeddingFailed | UpsertFailed

  /** The vector-store id of chunk `chunkIndex` of an article: `<articleId>-chunk-<chunkIndex>`. */
  function DocId(articleId: string, chunkIndex: nat): (id: string)
    ensures IsPrefix(articleId + "-chunk-", id)
    ensures var digits := id[|articleId + "-chunk-"|..];
            && (forall i :: 0 <= i < |digits| ==> IsDigit(digits[i]))
            && ParseNat(digits) == chunkIndex
  {
    var prefix := articleId + "-chunk-";
    var id := prefix + NatToString(chunkIndex);
    assert id[|prefix|..] == NatToString(chunkIndex);
    ParseNatToString(chunkIndex);
    id
  }

  /** Different chunks of one article get different ids. */
  lemma DocIdInjective(articleId: string, i: nat, j: nat)
    requires DocId(articleId, i) == DocId(articleId, j)
    ensures i == j
  {
    var n := |articleId + "-chunk-"|;
    assert DocId(articleId, i)[n..] == NatToString(i);
    assert DocId(articleId, j)[n..] == NatToString(j);
    NatToStringInjective(i, j);
  }

  /** One document per chunk, paired with the embedding at the same position. */
  function ToDocuments(articleId: string, chunks: seq<TextChunk>, embeddings: seq<Vector>): (docs: seq<VectorDocument>)
    ensures |docs| == |chunks|
    ensures forall i :: 0 <= i < |docs| ==>
              && docs[i].id == DocId(articleId, chunks[i].chunkIndex)
              && docs[i].metadata == ChunkMetadata(chunks[i].articleId, chunks[i].articleTitle, chunks[i].chunkIndex, chunks[i].text)
              && (i < |embeddings| ==> docs[i].vector == Some(embeddings[i]))
              && (i >= |embeddings| ==> docs[i].vector.None?)
  {
    seq(|chunks|, i requires 0 <= i < |chunks| =>
      VectorDocument(
        DocId(articleId, chunks[i].chunkIndex),
        if i < |embeddings| then Some(embeddings[i]) else None,
        ChunkMetadata(chunks[i].articleId, chunks[i].articleTitle, chunks[i].chunkIndex, chunks[i].text)))
  }

  /** The chunk texts, in chunk order: the batch sent for embedding. */
  function ChunkTexts(chunks: seq<TextChunk>): (texts: seq<string>)
    ensures |texts| == |chunks|
    ensures forall i :: 0 <= i < |chunks| ==> texts[i] == chunks[i].text
  {
    seq(|chunks|, i requires 0 <= i < |chunks| => chunks[i].text)
  }

  /** `indexArticle(articleId)`: finds the article, chunks it, embeds every
      chunk text in one batch and uploads one document per chunk in one batch.
      Fails when the article is absent or either service fails; uploads
      nothing when there is no chunk. */
  function IndexArticle(articles: seq<Article>, articleId: string, paragraphsOf: string -> seq<string>,
                        embed: seq<string> -> Option<seq<Vector>>, upsert: seq<VectorDocument> -> bool)
    : (r: Result<IndexOutcome, IndexError>)
    ensures r == Failure(ArticleNotFound) <==> !HasId(articles, articleId)
    ensures r.Success? && r.value.Upserted? ==>
              && |r.value.docs| > 0
              && upsert(r.value.docs)
              && forall i :: 0 <= i < |r.value.docs| ==>
                   && r.value.docs[i].id == DocId(articleId, i)
                   && r.value.docs[i].metadata.articleId == articleId
                   && r.value.docs[i].metadata.chunkIndex == i
    ensures r == Success(NoChunks) ==>
              exists a :: GetArticleById(articles, articleId) == Some(a)
                          && ChunkArticle(a.content, a.id, a.title, paragraphsOf) == []
    ensures HasId(articles, articleId) ==>
              var a := GetArticleById(articles, articleId).value;
              var chunks := ChunkArticle(a.content, a.id, a.title, paragraphsOf);
              && (chunks == [] <==> r == Success(NoChunks))
              && (chunks != [] ==> (embed(ChunkTexts(chunks)).None? <==> r == Failure(EmbeddingFailed)))
              && (chunks != [] && embed(ChunkTexts(chunks)).Some? ==>
                    var docs := ToDocuments(articleId, chunks, embed(ChunkTexts(chunks)).value);
                    && (upsert(docs) <==> r == Success(Upserted(docs)))
                    && (!upsert(docs) <==> r == Failure(UpsertFailed)))
  {
    match GetArticleById(articles, articleId)
    case None => Failure(ArticleNotFound)
    case Some(article) =>
      var chunks := ChunkArticle(article.content, article.id, article.title, paragraphsOf);
      if |chunks| == 0 then Success(NoChunks)
      else
        match embed(ChunkTexts(chunks))
        case None => Failure(EmbeddingFailed)
        case Some(embeddings) =>
          var docs := ToDocuments(articleId, chunks, embeddings);
          if upsert(docs) then Success(Upserted(docs)) else Failure(UpsertFailed)
  }

  /** Re-indexing an article that now has fewer chunks leaves the ids of its
      old trailing chunks untouched: no new document carries them. */
  lemma StaleChunksNotOverwritten(articles: seq<Article>, articleId: string, paragraphsOf: string -> seq<string>,
                                  embed: seq<string> -> Option<seq<Vector>>, upsert: seq<VectorDocument> -> bool, k: nat)
    ensures var r := IndexArticle(articles, articleId, paragraphsOf, embed, upsert);
            r.Success? && r.value.Upserted? && k >= |r.value.docs| ==>
              forall i :: 0 <= i < |r.value.docs| ==> r.value.docs[i].id != DocId(articleId, k)
  {
    var r := IndexArticle(articles, articleId, paragraphsOf, embed, upsert);
    if r.Success? && r.value.Upserted? && k >= |r.value.docs| {
      forall i | 0 <= i < |r.value.docs|
        ensures r.value.docs[i].id != DocId(articleId, k)
      {
        if r.value.docs[i].id == DocId(articleId, k) {
          DocIdInjective(articleId, i, k);
        }
      }
    }
  }

  /** Whether `indexArticle(id)` succeeds. */
  predicate Indexes(articles: seq<Article>, id: string, paragraphsOf: string -> seq<string>,
                    embed: seq<string> -> Option<seq<Vector>>, upsert: seq<VectorDocument> -> bool)
  {
    IndexArticle(articles, id, paragraphsOf, embed, upsert).Success?
  }

  /** `Indexes` as a test on articles. */
  function IndexesOf(articles: seq<Article>, paragraphsOf: string -> seq<string>,
                     embed: seq<string> -> Option<seq<Vector>>, upsert: seq<VectorDocument> -> bool): Article -> bool
  {
    (x: Article) => Indexes(articles, x.id, paragraphsOf, embed, upsert)
  }

  /** The number of articles, among `todo`, whose `indexArticle` call
      succeeds: all of them exactly when every call succeeds. */
  function Succeeded(articles: seq<Article>, todo: seq<Article>, paragraphsOf: string -> seq<string>,
                     embed: seq<string> -> Option<seq<Vector>>, upsert: seq<VectorDocument> -> bool): (n: nat)
    ensures n <= |todo|
    ensures n == |todo| <==> forall i :: 0 <= i < |todo| ==> Indexes(articles, todo[i].id, paragraphsOf, embed, upsert)
  {
    var indexes := IndexesOf(articles, paragraphsOf, embed, upsert);
    var n := CountWhere(todo, indexes);
    assert forall i :: 0 <= i < |todo| ==> indexes(todo[i]) == Indexes(articles, todo[i].id, paragraphsOf, embed, upsert);
    n
  }

  /** Counting one more article of the store adds one exactly when its indexing succeeds. */
  lemma SucceededSnoc(articles: seq<Article>, n: nat, paragraphsOf: string -> seq<string>,
                      embed: seq<string> -> Option<seq<Vector>>, upsert: seq<VectorDocument> -> bool)
    requires n < |articles|
    ensures Succeeded(articles, articles[..n + 1], paragraphsOf, embed, upsert)
            == Succeeded(articles, articles[..n], paragraphsOf, embed, upsert)
               + (if Indexes(articles, articles[n].id, paragraphsOf, embed, upsert) then 1 else 0)
  {
    var indexes := IndexesOf(articles, paragraphsOf, embed, upsert);
    CountWhereSnoc(articles, n, indexes);
    assert indexes(articles[n]) == Indexes(articles, articles[n].id, paragraphsOf, embed, upsert);
  }

  /** `indexAllArticles`: indexes every article in turn, counting successes
      and failures; a failure is caught and does not stop the loop. */
  method IndexAllArticles(articles: seq<Article>, paragraphsOf: string -> seq<string>,
                          embed: seq<string> -> Option<seq<Vector>>, upsert: seq<VectorDocument> -> bool)
    returns (indexed: nat, failed: nat)
    ensures indexed + failed == |articles|
    ensures indexed == Succeeded(articles, articles, paragraphsOf, embed, upsert)
  {
    indexed, failed := 0, 0;
    for n := 0 to |articles|
      invariant indexed == Succeeded(articles, articles[..n], paragraphsOf, embed, upsert)
      invariant indexed + failed == n
    {
      SucceededSnoc(articles, n, paragraphsOf, embed, upsert);
      if Indexes(articles, articles[n].id, paragraphsOf, embed, upsert) {
        indexed := indexed + 1;
      } else {
        failed := failed + 1;
      }
    }
    assert articles[..|articles|] == articles;
  }

  // ---------------------------------------------------------------------
  // Search
  // ---------------------------------------------------------------------

  /** The metadata of a hit; each field may be missing. */
  datatype Metadata = Metadata(text: Option<string>, articleId: Option<string>, articleTitle: Option<string>)

  datatype VectorSearchResult = VectorSearchResult(id: string, score: real, metadata: Option<Metadata>)

  datatype RagSearchResult = RagSearchResult(chunk: string, articleId: string, articleTitle: string, score: real)

  datatype SearchError = QueryEmbeddingFailed | VectorSearchFailed

  /** `(field as string) || ''`. */
  function OrEmpty(field: Option<string>): string {
    field.GetOr("")
  }

  /** A hit survives the filters: it has metadata and a non-empty text. */
  predicate Kept(v: VectorSearchResult) {
    v.metadata.Some? && OrEmpty(v.metadata.value.text) != ""
  }

  /** A kept hit as a search result: absent metadata fields read as empty
      strings and the score is passed through. */
  function ToRagResult(v: VectorSearchResult): (r: RagSearchResult)
    requires v.metadata.Some?
    ensures r.score == v.score
    ensures v.metadata.value.text.Some? ==> r.chunk == v.metadata.value.text.value
    ensures v.metadata.value.text.None? ==> r.chunk == ""
    ensures v.metadata.value.articleId.Some? ==> r.articleId == v.metadata.value.articleId.value
    ensures v.metadata.value.articleId.None? ==> r.articleId == ""
    ensures v.metadata.value.articleTitle.Some? ==> r.articleTitle == v.metadata.value.articleTitle.value
    ensures v.metadata.value.articleTitle.None? ==> r.articleTitle == ""
  {
    var m := v.metadata.value;
    RagSearchResult(OrEmpty(m.text), OrEmpty(m.articleId), OrEmpty(m.articleTitle), v.score)
  }

  /** The result mapping of `searchRelatedContent`: hits without metadata or
      with an empty text are dropped, the rest converted in their order. */
  function ToRagResults(hits: seq<VectorSearchResult>): (r: seq<RagSearchResult>)
    ensures |r| <= |hits|
    ensures forall i :: 0 <= i < |r| ==> r[i].chunk != ""
    ensures forall v :: v in hits && Kept(v) ==> ToRagResult(v) in r
    ensures forall x :: x in r ==> exists v :: v in hits && Kept(v) && x == ToRagResult(v)
  {
    if |hits| == 0 then []
    else
      var rest := ToRagResults(hits[1..]);
      assert forall v :: v in hits[1..] ==> v in hits;
      assert forall v :: v in hits ==> v == hits[0] || v in hits[1..];
      if Kept(hits[0]) then [ToRagResult(hits[0])] + rest else rest
  }

  /** The filter keeps the hits' order. */
  lemma {:induction false} ToRagResultsAppend(a: seq<VectorSearchResult>, b: seq<VectorSearchResult>)
    ensures ToRagResults(a + b) == ToRagResults(a) + ToRagResults(b)
  {
    if |a| > 0 {
      assert (a + b)[1..] == a[1..] + b;
      ToRagResultsAppend(a[1..], b);
    } else {
      assert a + b == b;
    }
  }

  /** `searchRelatedContent(query, topK)`: embed the query, search the `topK`
      nearest documents (three unless the caller says otherwise), and filter
      the hits. */
  function SearchRelatedContent(query: string, embedOne: string -> Option<Vector>,
                                search: (Vector, nat) -> Option<seq<VectorSearchResult>>, topK: nat := DefaultTopK)
    : (r: Result<seq<RagSearchResult>, SearchError>)
    ensures embedOne(query).None? <==> r == Failure(QueryEmbeddingFailed)
    ensures r == Failure(VectorSearchFailed) <==>
              embedOne(query).Some? && search(embedOne(query).value, topK).None?
    ensures embedOne(query).Some? && search(embedOne(query).value, topK).Some? ==>
              r == Success(ToRagResults(search(embedOne(query).value, topK).value))
    ensures r.Success? ==> exists hits :: search(embedOne(query).value, topK) == Some(hits)
                                          && r.value == ToRagResults(hits)
  {
    match embedOne(query)
    case None => Failure(QueryEmbeddingFailed)
    case Some(v) =>
      match search(v, topK)
      case None => Failure(VectorSearchFailed)
      case Some(hits) => Success(ToRagResults(hits))
  }

  /** A caller that names no count asks the vector store for three hits, and
      so gets at most three results from a store that honours the count. */
  lemma DefaultSearchKeepsAtMostThree(query: string, embedOne: string -> Option<Vector>,
                                      search: (Vector, nat) -> Option<seq<VectorSearchResult>>)
    requires forall v :: search(v, 3).Some? ==> |search(v, 3).value| <= 3
    ensures var r := SearchRelatedContent(query, embedOne, search);
            r.Success? ==> |r.value| <= 3
  {
    var r := SearchRelatedContent(query, embedOne, search);
    if r.Success? {
      var hits := search(embedOne(query).value, DefaultTopK).value;
      assert r.value == ToRagResults(hits);
    }
  }

  // ---------------------------------------------------------------------
  // Prompt
  // ---------------------------------------------------------------------

  const PromptHead: string := "你是一个乐于助人的 AI 助手。根据以下相关文章片段回答用户问题。\n\n【相关文章内容】\n"
  const PromptQuestion: string := "\n\n【用户问题】\n"
  const PromptTail: string := "\n\n请根据以上文章内容回答问题。如果文章内容中没有相关信息，请诚实告知，不要编造答案。"
  const BlockSeparator: string := "\n---\n\n"

  /** The labelled context block of hit number `n` (counting from 1);
      `percent` renders the score as a percentage with one decimal. */
  function Block(n: nat, r: RagSearchResult, percent: real -> string): string {
    BlockHead(n) + r.articleTitle + BlockBody(r, percent)
  }

  /** The block's number line and the label of its source line. */
  function BlockHead(n: nat): string {
    "[文章片段 " + NatToString(n) + "]\n来源: "
  }

  /** The rest of a block after the title: relevance line, then the chunk. */
  function BlockBody(r: RagSearchResult, percent: real -> string): string {
    ScoreLines(percent(r.score)) + r.chunk + "\n"
  }

  /** The relevance line and the label of the content line. */
  function ScoreLines(score: string): string {
    "\n相关度: " + score + "%\n内容: "
  }

  /** The blocks of all hits, numbered from 1 in their order. */
  function Blocks(results: seq<RagSearchResult>, percent: real -> string): (bs: seq<string>)
    ensures |bs| == |results|
    ensures forall i :: 0 <= i < |results| ==> bs[i] == Block(i + 1, results[i], percent)
  {
    seq(|results|, i requires 0 <= i < |results| => Block(i + 1, results[i], percent))
  }

  /** `buildRAGPrompt(query, results)`: the query itself when there is no hit;
      otherwise the fixed instructions, the blocks joined by separators, the
      question and the closing instruction. */
  function BuildRagPrompt(query: string, results: seq<RagSearchResult>, percent: real -> string): (prompt: string)
    ensures |results| == 0 ==> prompt == query
    ensures |results| > 0 ==> IsPrefix(PromptHead, prompt)
    ensures |results| > 0 ==> |query| + |PromptTail| <= |prompt|
                              && prompt[|prompt| - |PromptTail| - |query|..] == query + PromptTail
    ensures |results| > 0 ==> var n := |PromptQuestion| + |query| + |PromptTail|;
                              n <= |prompt| && prompt[|prompt| - n..] == PromptQuestion + (query + PromptTail)
  {
    if |results| == 0 then query
    else
      var body := PromptHead + Join(Blocks(results, percent), BlockSeparator);
      PromptEndsWith(body, query);
      body + PromptEnd(query)
  }

  /** The question section and the closing instruction. */
  function PromptEnd(query: string): string {
    PromptQuestion + (query + PromptTail)
  }

  /** What follows the blocks ends the prompt: the question label, the query
      and the closing instruction, the last two also on their own. */
  lemma PromptEndsWith(body: string, query: string)
    ensures var prompt := body + PromptEnd(query);
            && |query| + |PromptTail| <= |prompt|
            && prompt[|prompt| - |PromptTail| - |query|..] == query + PromptTail
            && var n := |PromptQuestion| + |query| + |PromptTail|;
               n <= |prompt| && prompt[|prompt| - n..] == PromptQuestion + (query + PromptTail)
  {
    var end := PromptEnd(query);
    SuffixOfAppend(body, end, |query + PromptTail|);
    SuffixOfAppend(PromptQuestion, query + PromptTail, |query + PromptTail|);
    EndsWith(body, end);
  }

  /** `ragQuery(query, topK)`: search, then build the prompt from the hits;
      `topK` defaults to three here too. */
  function RagQuery(query: string, embedOne: string -> Option<Vector>,
                    search: (Vector, nat) -> Option<seq<VectorSearchResult>>, percent: real -> string,
                    topK: nat := DefaultTopK)
    : (r: Result<string, SearchError>)
    ensures r.Failure? <==> SearchRelatedContent(query, embedOne, search, topK).Failure?
    ensures r.Success? && SearchRelatedContent(query, embedOne, search, topK).value == [] ==> r.value == query
    ensures r.Success? ==>
              r.value == BuildRagPrompt(query, SearchRelatedContent(query, embedOne, search, topK).value, percent)
  {
    match SearchRelatedContent(query, embedOne, search, topK)
    case Failure(e) => Failure(e)
    case Success(results) => Success(BuildRagPrompt(query, results, percent))
  }

  /** Where block `i` starts inside the prompt. */
  function BlockOffset(results: seq<RagSearchResult>, percent: real -> string, i: nat): nat
    requires i <= |results|
  {
    |PromptHead| + JoinOffset(Blocks(results, percent), BlockSeparator, i)
  }

  /** Hit `i` appears in the prompt as block number `i + 1`, at its offset,
      and the blocks appear in the hits' order, separated by `BlockSeparator`. */
  lemma PromptBlockAt(query: string, results: seq<RagSearchResult>, percent: real -> string, i: nat)
    requires i < |results|
    ensures var prompt := BuildRagPrompt(query, results, percent);
            var off := BlockOffset(results, percent, i);
            var block := Block(i + 1, results[i], percent);
            && off + |block| <= |prompt|
            && prompt[off..][..|block|] == block
            && (i + 1 < |results| ==> off + |block| + |BlockSeparator| == BlockOffset(results, percent, i + 1))
  {
    var bs := Blocks(results, percent);
    BlockPlaced(PromptHead + Join(bs, BlockSeparator) + PromptEnd(query), query, bs, i,
                BlockOffset(results, percent, i), Block(i + 1, results[i], percent));
  }

  /** The placement of block `i` in a prompt built from any block list:
      at its offset, followed by `BlockSeparator` when another block comes
      next, and otherwise by the question section and nothing else. */
  lemma BlockPlaced(prompt: string, query: string, bs: seq<string>, i: nat, off: nat, block: string)
    requires prompt == PromptHead + Join(bs, BlockSeparator) + PromptEnd(query)
    requires i < |bs| && block == bs[i] && off == |PromptHead| + JoinOffset(bs, BlockSeparator, i)
    ensures off + |block| <= |prompt| && prompt[off..][..|block|] == block
    ensures i + 1 < |bs| ==> off + |block| + |BlockSeparator| == |PromptHead| + JoinOffset(bs, BlockSeparator, i + 1)
    ensures i + 1 < |bs| ==> OccursAt(prompt, BlockSeparator, off + |block|)
    ensures i + 1 == |bs| ==> off + |block| <= |prompt| && prompt[off + |block|..] == PromptEnd(query)
  {
    PartPlaced(prompt, PromptHead, bs, BlockSeparator, PromptEnd(query), i, off, block);
  }

  /** A block mentions its hit's title and text. */
  lemma BlockMentions(n: nat, r: RagSearchResult, percent: real -> string)
    ensures IsInfix(r.articleTitle, Block(n, r, percent))
    ensures IsInfix(r.chunk, Block(n, r, percent))
  {
    var body := BlockBody(r, percent);
    InfixOfConcat(BlockHead(n), r.articleTitle, body);
    InfixOfConcat(ScoreLines(percent(r.score)), r.chunk, "\n");
    InfixTransitive(r.chunk, body, Block(n, r, percent));
  }

  /** A non-empty prompt mentions the query and every hit's title and text. */
  lemma PromptMentionsEverything(query: string, results: seq<RagSearchResult>, percent: real -> string, i: nat)
    requires i < |results|
    ensures var prompt := BuildRagPrompt(query, results, percent);
            && IsInfix(query, prompt)
            && IsInfix(results[i].articleTitle, prompt)
            && IsInfix(results[i].chunk, prompt)
  {
    var prompt := BuildRagPrompt(query, results, percent);
    var block := Block(i + 1, results[i], percent);
    QueryInPrompt(query, results, percent);
    BlockInPrompt(query, results, percent, i);
    BlockMentions(i + 1, results[i], percent);
    InfixTransitive(results[i].articleTitle, block, prompt);
    InfixTransitive(results[i].chunk, block, prompt);
  }

  /** The query part of `PromptMentionsEverything`. */
  lemma QueryInPrompt(query: string, results: seq<RagSearchResult>, percent: real -> string)
    requires |results| > 0
    ensures IsInfix(query, BuildRagPrompt(query, results, percent))
  {
    var prompt := BuildRagPrompt(query, results, percent);
    var k := |prompt| - |PromptTail| - |query|;
    assert prompt[k..][..|query|] == query;
    assert IsPrefix(query, prompt[k..]);
  }

  /** The block part of `PromptMentionsEverything`. */
  lemma BlockInPrompt(query: string, results: seq<RagSearchResult>, percent: real -> string, i: nat)
    requires i < |results|
    ensures IsInfix(Block(i + 1, results[i], percent), BuildRagPrompt(query, results, percent))
  {
    var prompt := BuildRagPrompt(query, results, percent);
    PromptBlockAt(query, results, percent, i);
    var off := BlockOffset(results, percent, i);
    var block := Block(i + 1, results[i], percent);
    assert IsPrefix(block, prompt[off..]);
  }
}
