# Portfolio site core, modelled in Dafny

The site is a Next.js portfolio with a blog and an AI chat assistant. This
project models the deterministic logic behind it:

- the retrieval-augmented generation helpers: the paragraph chunker with its
  sliding window over long paragraphs, the per-chunk vector document ids, the
  indexing counters, the search-result filter and the prompt builder;
- the article store (list, find, create, view counter, delete, rename,
  unique slugs) and the project store (find, partial update);
- the daily visit counter;
- the request handlers for articles (GET/POST/DELETE), article upload
  (Markdown/Word/PDF dispatch, titles, slugs), project PATCH, chat, and image
  upload.

Each JSON file becomes an immutable `seq`. Each store operation is a pure
function from the old sequence to a pair (result, new sequence). Each handler
is a function from the request fields to a `Response` (a status and a body, or
a status and an error message). These are passed in as function parameters
and are otherwise unspecified:

- hosted services: embeddings, vector upsert and search, chat completion;
- clocks and random suffixes;
- `decodeURIComponent`;
- Word extraction;
- the regex Markdown clean-up.

Modules, one per source component: `Wrappers` (Option/Result), `Text`
(JavaScript `trim`, ASCII lower-casing, decimal numerals, join and substring
search), `Seqs` (first match, descending insertion sort), `Chunker` and
`ChunkerProperties`, `Rag`, `Articles` and `ArticleStoreProperties`,
`Projects`, `Stats`, `Slug` (title to slug), `Heading` (the Markdown title
pattern `^#\s+(.+)$` with the `m` flag), `Http`, `ArticlesRoute`,
`UploadRoute`, `ProjectsRoute`, `ChatRoute`, `ImageRoute`.

Two behaviours of the chunker differ from what its own configuration
suggests; the model follows the code:

- **Chunk length.** The configuration comment at app/app/lib/rag.ts:34 calls
  500 the maximum characters per chunk. The code compares the buffer with
  that limit only after appending a paragraph, so a chunk reaches 1002
  characters. `ChunkerProperties.ChunkMayExceedMax` gives the input; the
  proved bound is 500 + 2 + 500.
- **Empty chunks.** A 500-character window of blanks inside a long paragraph
  is trimmed to the empty string and still emitted as a chunk
  (`ChunkerProperties.EmptyChunkPossible`).

## Model

| member | source | states |
|---|---|---|
| Text.TrimStart | app/app/lib/rag.ts:67 | result is a suffix of the input; everything dropped is JavaScript white space; it does not start with white space |
| Text.TrimEnd | app/app/lib/rag.ts:67 | result is a prefix; everything dropped is white space; it does not end with white space |
| Text.Trim | app/app/lib/rag.ts:67 | the result is the piece of the input that starts at some position k, with only white space before k and after the piece; it is no longer than the input and starts and ends with a non-white-space character (or is empty) |
| Text.TrimIsInfix | app/app/lib/rag.ts:67 | the trimmed string occurs inside the original |
| Text.TrimKeeps | app/app/lib/rag.ts:67 | a string already without outer white space is unchanged by trimming |
| Text.TrimAllWhitespace | app/app/lib/rag.ts:87 | an all-blank string trims to empty, which is how a blank window becomes an empty chunk |
| Text.TrimIdempotent | app/app/lib/rag.ts:74 | trimming twice equals trimming once |
| Text.LineTerminatorIsWhitespace | app/app/lib/rag.ts:67 | every line terminator also counts as white space for `\s` and `trim` |
| Text.AsciiWhitespace | app/app/lib/rag.ts:67 | among ASCII characters, white space for `trim` and `\s` is exactly space, tab, line feed, carriage return, vertical tab and form feed |
| Text.TrimBlank | app/app/api/chat/route.ts:110 | a string trims to the empty string exactly when all its characters are white space |
| Text.LowerAscii | app/app/api/articles/upload/route.ts:63 | length preserved, each character mapped by the lower-case table |
| Text.LowerAsciiAppend | app/app/api/articles/upload/route.ts:63 | lower-casing a concatenation lower-cases each part |
| Text.DigitChar | app/app/lib/rag.ts:232 | a digit value maps to a decimal digit character |
| Text.NatToString | app/app/lib/rag.ts:232 | the decimal rendering of a number is non-empty, all digits, and one digit exactly for numbers below 10 |
| Text.ParseNatToString | app/app/lib/rag.ts:232 | reading the decimal rendering back gives the number (round trip) |
| Text.NatToStringInjective | app/app/lib/rag.ts:153 | different numbers render differently |
| Text.JoinPrefix | app/app/lib/rag.ts:238 | joining the first k parts is a prefix of joining all parts |
| Text.Join | app/app/lib/rag.ts:238 | joining no parts gives the empty string; otherwise the joined string starts with the first part and ends with the last |
| Text.PartAt | app/app/lib/rag.ts:238 | part k sits at its offset in the joined string, and the next part starts after it and the separator |
| Text.IndexOf | app/app/api/articles/upload/route.ts:33 | returns the first position where the pattern occurs, or None exactly when it occurs nowhere |
| Text.IndexFrom | app/app/api/articles/upload/route.ts:33 | the first occurrence at or after a start position, or None iff there is none |
| Text.ReplaceFirst | app/app/api/articles/upload/route.ts:33 | replaces only the first occurrence and keeps the text around it; unchanged when there is none |
| Text.ReplaceFirstRoundTrip | app/app/api/articles/upload/route.ts:33 | putting the pattern back at the first occurrence rebuilds the original string |
| Text.LastIndexOf | app/app/api/articles/upload/route.ts:29 | the last position holding the character, or None iff it does not occur |
| Seqs.FirstIndex | app/lib/articles.ts:86 | the first index satisfying the predicate, or None iff no element does |
| Seqs.Find | app/lib/articles.ts:50 | the first element satisfying the predicate, or None iff none does |
| Seqs.Insert | app/api/articles/route.ts:22-24 | inserting into a descending sequence keeps it descending and adds exactly the element (multiset) |
| Seqs.SortDesc | app/api/articles/route.ts:22-24 | result is sorted by descending key and is a permutation of the input |
| Seqs.SortedPrefixDominates | app/app/api/chat/route.ts:80-82 | in a descending sequence every element outside the first n has a key no greater than each of the first n |
| Chunker.WindowStartIsMultiple | app/app/lib/rag.ts:85-92 | window k of a long paragraph starts at k * 450, since each pass drops the first 450 characters |
| Chunker.WindowShift | app/app/lib/rag.ts:85-92 | consecutive windows start 450 characters apart |
| Chunker.WindowCount | app/app/lib/rag.ts:84-93 | the loop cuts windows until the rest is at most 500 long: the last start is within the text, the leftover is at most 500, and one window fewer would leave more than 500 |
| Chunker.WindowCountStep | app/app/lib/rag.ts:84-92 | a text over 500 yields one window more than the text after its first 450 characters |
| Chunker.WindowInside | app/app/lib/rag.ts:84-87 | every cut window lies fully inside the paragraph |
| Chunker.Window | app/app/lib/rag.ts:87 | every window is exactly 500 characters before trimming |
| Chunker.CutWindows | app/app/lib/rag.ts:84-93 | the window loop appends one chunk per window and keeps the chunks emitted before it |
| Chunker.Push | app/app/lib/rag.ts:73-78 | emitting appends exactly one chunk and keeps the earlier ones; the new chunk holds the trimmed text, the article's id and title, and the count of earlier chunks as its index |
| Chunker.LeftoverOfRest | app/app/lib/rag.ts:92-94 | the leftover of the text after its first window equals the leftover of the whole text |
| Chunker.CutWindowsBuffer | app/app/lib/rag.ts:92-94 | the buffer left after the window loop is the suffix from the last window start |
| Chunker.WindowOfRest | app/app/lib/rag.ts:92 | window j of the text after 450 characters is window j + 1 of the whole text |
| Chunker.WindowsAligned | app/app/lib/rag.ts:92 | aligned windows of a text and of its rest coincide |
| Chunker.CutWindowsBufferBound | app/app/lib/rag.ts:94 | the leftover that becomes the new buffer is at most 500 characters |
| Chunker.FirstWindowChunk | app/app/lib/rag.ts:86-91 | the first chunk of a long paragraph is its first 500 characters trimmed, numbered next |
| Chunker.CutWindowsSpec | app/app/lib/rag.ts:84-94 | chunk i of the window loop is window i - base trimmed, carries the article's id and title and index i; the leftover is at most 500 |
| Chunker.CutWindowsChunk | app/app/lib/rag.ts:86-91 | the per-index form of the previous row |
| Chunker.PushNumbered | app/app/lib/rag.ts:73-77 | emitting a chunk keeps indices consecutive from 0 and the article's id and title on every chunk |
| Chunker.PushBounded | app/app/lib/rag.ts:101-106 | emitting a chunk no longer than a bound keeps every chunk within it |
| Chunker.CutWindowsNumbered | app/app/lib/rag.ts:86-91 | the window loop keeps the numbering and emits chunks of at most 500 characters |
| Chunker.LongStepInvariant | app/app/lib/rag.ts:70-94 | a long paragraph only appends chunks, keeps the numbering, leaves a buffer of at most 500, and bounds each new chunk by the old buffer plus 500 |
| Chunker.ShortStepInvariant | app/app/lib/rag.ts:96-110 | a short paragraph only appends, keeps the numbering, leaves a buffer of at most 500, and bounds the new chunk by old buffer + 2 + 500 |
| Chunker.LongStep | app/app/lib/rag.ts:70-94 | a paragraph over 500 characters only appends chunks, always at least one, and leaves a buffer of at most 500 |
| Chunker.ShortStep | app/app/lib/rag.ts:96-110 | a short paragraph appends at most one chunk, and does so exactly when the buffer, a break if it was non-empty, and the paragraph exceed 500 together; after a flush the buffer is at most 50 long, and it never exceeds 500 |
| Chunker.Step | app/app/lib/rag.ts:67-111 | one paragraph only appends chunks, emits at least one when its trimmed text exceeds 500, and leaves a buffer of at most 500 |
| Chunker.Run | app/app/lib/rag.ts:66-112 | after any paragraphs the buffer is at most 500, and processing one more paragraph never retracts a chunk already emitted |
| Chunker.StepInvariant | app/app/lib/rag.ts:66-112 | one paragraph of the loop preserves the numbering and the 500 bound on the buffer, and extends the chunk list |
| Chunker.RunInvariant | app/app/lib/rag.ts:66-112 | after any paragraphs the chunks are numbered 0, 1, … with the article's id and title, each at most 1002 long, and the buffer at most 500 |
| Chunker.RunSnoc | app/app/lib/rag.ts:66 | the fold over paragraphs processes them in order, one step per paragraph |
| Chunker.ChunkParagraphs | app/app/lib/rag.ts:63-124 | the chunk list of an article: index i has chunkIndex i, every chunk has the given id and title, and none exceeds 1002 characters |
| Chunker.ChunkArticle | app/app/lib/rag.ts:46-125 | for whole content split by the cleaning function: index i has chunkIndex i, every chunk has the given id and title, and none exceeds 500 + 2 + 500 = 1002 characters |
| Chunker.CutWindowsLoop | app/app/lib/rag.ts:83-93 | the imperative while loop computes the functional window cut, with the counter equal to the number of chunks |
| Chunker.AddLongParagraph | app/app/lib/rag.ts:70-94 | the imperative long-paragraph branch equals the functional step |
| Chunker.AddShortParagraph | app/app/lib/rag.ts:96-110 | the short branch appends with a "\n\n" break when the buffer is non-empty; over 500 it emits the buffer and keeps its last 50 characters, otherwise it only extends the buffer |
| Chunker.AddParagraph | app/app/lib/rag.ts:67-111 | the loop body equals the functional step |
| Chunker.ChunkParagraphsLoop | app/app/lib/rag.ts:63-124 | the imperative chunker computes the functional chunk list, numbered consecutively |
| ChunkerProperties.FlushRule | app/app/lib/rag.ts:97-110 | a short paragraph emits a chunk iff the joined buffer exceeds 500; then the chunk is the trimmed buffer and the new buffer is its last 50 characters; otherwise the buffer is just extended |
| ChunkerProperties.ShortStepRule | app/app/lib/rag.ts:97-110 | the same rule for the step over an already trimmed short paragraph |
| ChunkerProperties.ShortPendingDiscarded | app/app/lib/rag.ts:72-80 | a pending buffer of at most 100 characters before a long paragraph is dropped, as if it were empty |
| ChunkerProperties.LongPendingFlushed | app/app/lib/rag.ts:72-94 | a pending buffer over 100 characters is emitted trimmed before the paragraph's windows, and the leftover (a suffix of the paragraph) replaces it |
| ChunkerProperties.LeftoverIsSuffix | app/app/lib/rag.ts:92-94 | the buffer after the window loop is a suffix of the paragraph |
| ChunkerProperties.TrailingBufferRule | app/app/lib/rag.ts:114-122 | the final buffer becomes one more chunk iff it is over 100 characters, as its trimmed text with the next index |
| ChunkerProperties.ChunkMayExceedMax | app/app/lib/rag.ts:97-106 | two 500-character paragraphs yield one chunk of 1002 characters |
| ChunkerProperties.SingleParagraph | app/app/lib/rag.ts:66-112 | a one-paragraph article is one step from the empty state |
| ChunkerProperties.MiddleWindowBlank | app/app/lib/rag.ts:84-92 | a 1002-character paragraph of `a`, 1000 blanks and `b` has two windows, the second blank after trimming |
| ChunkerProperties.LongFirstParagraph | app/app/lib/rag.ts:70-94 | a long first paragraph is cut into windows straight away |
| ChunkerProperties.SpacedOutWindows | app/app/lib/rag.ts:84-94 | for that paragraph the window loop emits two chunks, the second empty, and leaves a 102-character buffer |
| ChunkerProperties.TwoWindows | app/app/lib/rag.ts:84-94 | when a paragraph has two windows the loop emits two chunks, the second the trimmed second window, and leaves the text from the third window start |
| ChunkerProperties.SpacedOutChunks | app/app/lib/rag.ts:84-122 | the whole chunker emits three chunks for it, the middle one empty |
| ChunkerProperties.EmptyChunkPossible | app/app/lib/rag.ts:87 | some article yields an empty chunk |
| Rag.DocIdInjective | app/app/lib/rag.ts:153 | two chunks of one article never share a vector id |
| Rag.DocId | app/app/lib/rag.ts:153 | the id starts with `<articleId>-chunk-` and the rest is the chunk index in decimal digits, which reads back as that index |
| Rag.ChunkTexts | app/app/lib/rag.ts:148 | one text per chunk, in order, each the chunk's own text |
| Rag.ToDocuments | app/app/lib/rag.ts:148-161 | one document per chunk, with id `<articleId>-chunk-<chunkIndex>`, the chunk's metadata, and the i-th embedding as its vector (none when the embedding list is short) |
| Rag.IndexArticle | app/app/lib/rag.ts:131-167 | an unknown id fails with "not found"; for a found article: no chunks gives the no-upload outcome; otherwise the chunk texts are embedded in one batch, a failed embedding fails, and the documents built from the chunks and the returned vectors are upserted, the outcome being success with exactly those documents iff the upsert succeeds; the documents are numbered 0, 1, … for that article |
| Rag.StaleChunksNotOverwritten | app/app/lib/rag.ts:152-164 | re-indexing a shorter article leaves ids beyond the new chunk count untouched |
| Rag.IndexAllArticles | app/app/lib/rag.ts:172-189 | every article is tried: indexed + failed is the number of articles, and indexed counts those whose indexing succeeds |
| Rag.Succeeded | app/app/lib/rag.ts:177-185 | the success count never exceeds the number of articles tried, and equals it exactly when every indexing call succeeds |
| Rag.ToRagResults | app/app/lib/rag.ts:205-213 | the kept results are exactly the hits with metadata and non-empty text, none with an empty chunk |
| Rag.ToRagResultsAppend | app/app/lib/rag.ts:205-213 | filtering distributes over concatenation, so the input order is kept |
| Rag.ToRagResult | app/app/lib/rag.ts:207-212 | the score is passed through; the text, article id and title are the metadata's when present and the empty string otherwise |
| Rag.SearchRelatedContent | app/app/lib/rag.ts:197-216 | the query-embedding error iff the query embedding fails; the search error iff the embedding succeeds and the search fails; when both succeed, exactly the filtered search hits; three hits are asked for unless the caller names a count |
| Rag.DefaultSearchKeepsAtMostThree | app/app/lib/rag.ts:197-202 | without an explicit count, a store that returns at most the requested number of hits yields at most three results |
| Rag.Blocks | app/app/lib/rag.ts:230-237 | one block per result, block i numbered i + 1 |
| Rag.BuildRagPrompt | app/app/lib/rag.ts:224-252 | no results gives the query itself; otherwise the prompt starts with the fixed instruction and ends with the question label, then the query, then the fixed closing line |
| Rag.PromptBlockAt | app/app/lib/rag.ts:230-249 | block i of the prompt sits at its offset, and block i + 1 follows after the `\n---\n\n` separator |
| Rag.BlockPlaced | app/app/lib/rag.ts:230-252 | in the prompt's shape, block i sits at its offset and is followed by the `\n---\n\n` separator when another block comes next; the last block is followed by the question section and nothing else |
| Rag.BlockMentions | app/app/lib/rag.ts:232-235 | each block contains its result's article title and chunk |
| Rag.PromptMentionsEverything | app/app/lib/rag.ts:224-252 | the prompt contains the query and every result's title and chunk |
| Rag.RagQuery | app/app/lib/rag.ts:260-263 | fails iff the search fails; on success the prompt built from the query and exactly the search results, which is the bare query when there is no hit; the count defaults to three as for the search |
| Articles.GetArticleListItems | app/lib/articles.ts:24-33 | same length and order, each item projecting id, title, slug, viewCount and publishedAt |
| Articles.GetArticleBySlug | app/lib/articles.ts:38-43 | the first article whose slug equals the decoded slug, or None iff there is none |
| Articles.GetArticleById | app/lib/articles.ts:48-51 | the first article with the id, or None iff there is none |
| Articles.CreateArticle | app/lib/articles.ts:56-77 | appends exactly one article at the end with the draft's fields, viewCount 0, createdAt = updatedAt = now |
| Articles.IncrementViewCount | app/lib/articles.ts:82-96 | None and no change iff no slug matches; otherwise only the first match's viewCount rises, and it is returned |
| Articles.WithoutId | app/lib/articles.ts:103 | keeps exactly the articles with another id, and keeps the length iff none has the id |
| Articles.WithoutIdAppend | app/lib/articles.ts:103 | filtering distributes over concatenation, so order is kept |
| Articles.WithoutIdUnchanged | app/lib/articles.ts:103-106 | filtering an absent id changes nothing |
| Articles.DeleteArticle | app/lib/articles.ts:101-111 | false and unchanged iff no article has the id; otherwise every article with it is removed |
| Articles.UpdateArticleTitle | app/lib/articles.ts:116-132 | None and unchanged iff the id is absent; otherwise only the first match's title and updatedAt change |
| Articles.CandidateInjective | app/lib/articles.ts:151 | different counters give different slug candidates |
| Articles.Candidate | app/lib/articles.ts:151 | a candidate starts with the base; it is the base itself exactly for counter 0, and otherwise the base, a hyphen and the counter in decimal |
| Articles.CandidatesMembers | app/lib/articles.ts:147-153 | the first n candidates are exactly base, base-1, …, base-(n-1) |
| Articles.CandidatesSize | app/lib/articles.ts:147-153 | the first n candidates are n different strings |
| Articles.SlugsSize | app/lib/articles.ts:150 | there are no more slugs than articles |
| Articles.TakenAttemptsBounded | app/lib/articles.ts:150-153 | the loop can fail at most once per article, so it terminates |
| Articles.UniqueSlugFrom | app/lib/articles.ts:150-153 | continuing from a counter yields the first candidate not taken |
| Articles.GenerateUniqueSlug | app/lib/articles.ts:145-156 | the result is unused, it is the least untaken candidate, and it is the base itself when the base is free |
| ArticleStoreProperties.TotalViewsUpdate | app/lib/articles.ts:92 | replacing one article changes the total view count by the difference |
| ArticleStoreProperties.IncrementAddsOneView | app/lib/articles.ts:82-96 | a view adds exactly one to the total when the slug exists, zero otherwise |
| ArticleStoreProperties.CreateThenFind | app/lib/articles.ts:56-77 | a created article with a fresh id is found by that id |
| ArticleStoreProperties.CreateWithGeneratedSlugKeepsSlugsUnique | app/lib/articles.ts:145-156 | creating with a generated slug keeps all slugs distinct |
| ArticleStoreProperties.IncrementKeepsSlugs | app/lib/articles.ts:92 | counting a view never changes a slug |
| ArticleStoreProperties.UpdateTitleKeepsSlugs | app/lib/articles.ts:127-128 | renaming never changes a slug |
| ArticleStoreProperties.WithoutIdKeepsSlugsUnique | app/lib/articles.ts:103 | deleting keeps slugs distinct |
| ArticleStoreProperties.DeleteThenFind | app/lib/articles.ts:101-111 | after a delete the id is not found |
| Projects.GetProjectById | app/lib/projects.ts:39-42 | the first project with the id, or None iff there is none |
| Projects.ApplyUpdate | app/lib/projects.ts:59-67 | each of emoji, catchphrase, imageUrl is overwritten iff given (even as the empty string); id, title, description and link never change |
| Projects.UpdateProject | app/lib/projects.ts:47-71 | None and nothing saved iff the id is absent; otherwise only the first match is updated and returned |
| Projects.UpdatesCompose | app/lib/projects.ts:59-67 | two updates in a row equal one merged update in which the later fields win |
| Projects.UpdateIdempotent | app/lib/projects.ts:59-67 | applying the same update twice equals applying it once |
| Projects.UndefinedVersusEmpty | app/lib/projects.ts:59-67 | an update with no fields changes nothing, while an empty string does overwrite |
| Projects.UpdateProjectFrame | app/lib/projects.ts:47-71 | length and order kept, fixed fields kept, other projects unchanged |
| Stats.EnsureStats | app/app/lib/stats.ts:13-37 | a stored record is used as is; a missing or unreadable one yields {0, 0, ""} |
| Stats.Visit | app/app/lib/stats.ts:48-59 | total rises by one; on a new date today's count becomes 1, on the same date it rises by one; lastDate becomes today |
| Stats.UpdateStats | app/app/lib/stats.ts:45-69 | the same, starting from the loaded or default record |
| Stats.TwoVisitsSameDay | app/app/lib/stats.ts:45-59 | two visits on one date add 2 to the total, and today's count ends at 2 more (or 2 after a rollover) |
| Stats.TrailingRun | app/app/lib/stats.ts:49-56 | the run of equal dates at the end of a visit history has length between 1 and the history length |
| Stats.ReplayCounts | app/app/lib/stats.ts:45-59 | after any visit sequence: total rises by its length, lastDate is the last date, today's count is the trailing run of equal dates (plus the old count if the run reaches back to an unchanged date) |
| Slug.SlugCharsAppend | app/app/api/articles/upload/route.ts:64 | the kept slug characters of a concatenation are those of each part |
| Slug.SlugCharIsKept | app/app/api/articles/upload/route.ts:64 | a character the slug keeps is never a hyphen or white space, and lower-casing leaves it unchanged |
| Slug.SkipRun | app/app/api/articles/upload/route.ts:64 | drops a maximal run of non-slug characters from the front |
| Slug.SkipRunSlugChars | app/app/api/articles/upload/route.ts:64 | skipping the run loses no slug character |
| Slug.SkipRunAppend | app/app/api/articles/upload/route.ts:64 | a skip starting inside a string that ends in a slug character stops inside it |
| Slug.SkipRunOver | app/app/api/articles/upload/route.ts:64 | skipping a run of non-slug characters lands exactly on what follows it |
| Slug.Collapse | app/app/api/articles/upload/route.ts:64 | each maximal run of characters outside a-z, 0-9 and U+4E00–U+9FA5 becomes one hyphen: only slug characters and hyphens, no double hyphen, empty iff the input is, a slug character at the front kept and a run at the front turned into a hyphen |
| Slug.CollapseSlugChars | app/app/api/articles/upload/route.ts:64 | collapsing keeps every slug character, in order |
| Slug.CollapseAppend | app/app/api/articles/upload/route.ts:64 | a string ending in a slug character collapses independently of what follows |
| Slug.CollapseRunFront | app/app/api/articles/upload/route.ts:64 | a leading run of non-slug characters becomes exactly one hyphen in front of the collapsed rest |
| Slug.CollapseRun | app/app/api/articles/upload/route.ts:64 | a maximal run of non-slug characters between two parts becomes exactly one hyphen at that place, each part collapsing on its own |
| Slug.CollapseWord | app/app/api/articles/upload/route.ts:64 | a word of slug characters is unchanged by collapsing |
| Slug.SliceHyphenated | app/app/api/articles/upload/route.ts:64 | a slice of a hyphenated string is hyphenated |
| Slug.CollapseFixed | app/app/api/articles/upload/route.ts:64 | collapsing an already collapsed string changes nothing |
| Slug.CollapseHyphenated | app/app/api/articles/upload/route.ts:64 | collapsing yields slug characters and single hyphens only |
| Slug.StripFront | app/app/api/articles/upload/route.ts:65 | removes exactly the leading hyphens |
| Slug.StripBack | app/app/api/articles/upload/route.ts:65 | removes exactly the trailing hyphens |
| Slug.StripFrontSlugChars | app/app/api/articles/upload/route.ts:65 | stripping leading hyphens loses no slug character |
| Slug.StripBackSlugChars | app/app/api/articles/upload/route.ts:65 | stripping trailing hyphens loses no slug character |
| Slug.StripFrontOf | app/app/api/articles/upload/route.ts:65 | hyphens in front of a string not starting with a hyphen are all removed, and nothing else |
| Slug.StripBackOf | app/app/api/articles/upload/route.ts:65 | hyphens after a string not ending with a hyphen are all removed, and nothing else |
| Slug.StripHyphens | app/app/api/articles/upload/route.ts:65 | the result is the piece of the input starting at some position k with only hyphens before k and after the piece; it has no leading or trailing hyphen, keeps the slug characters, and a slug is left unchanged |
| Slug.StripKeepsShape | app/app/api/articles/upload/route.ts:65 | stripping a collapsed string gives a well-formed slug |
| Slug.Slugify | app/app/api/articles/upload/route.ts:62-65 | the base slug has no leading or trailing hyphen, no `--`, and only slug characters and hyphens (where the hyphens fall: Slug.SlugifyJoinsWords, Slug.SlugifyTrimsEnds) |
| Slug.SlugifyKeepsSlugChars | app/app/api/articles/upload/route.ts:62-65 | the slug keeps exactly the slug characters of the lower-cased title, in order |
| Slug.NoSlugChars | app/app/api/articles/upload/route.ts:65 | a string of hyphens holds no slug character |
| Slug.SlugifyIdempotent | app/app/api/articles/upload/route.ts:62-65 | slugifying a slug again gives the same slug |
| Slug.SlugifyFixed | app/app/api/articles/upload/route.ts:62-65 | a well-formed slug is its own slug |
| Slug.SlugOfSymbolsIsEmpty | app/app/api/articles/upload/route.ts:62-65 | a title without slug characters gives the empty slug |
| Slug.NoSlugCharsInLower | app/app/api/articles/upload/route.ts:63-64 | lower-casing such a title adds none |
| Slug.SlugCharOfSlug | app/app/api/articles/upload/route.ts:62-65 | a non-empty slug holds a slug character |
| Slug.LowerSlugChars | app/app/api/articles/upload/route.ts:63 | lower-casing leaves slug characters alone |
| Slug.SlugifyJoinsWords | app/app/api/articles/upload/route.ts:62-65 | two words of slug characters separated by any run of other characters give the two words joined by a single hyphen |
| Slug.CollapseTail | app/app/api/articles/upload/route.ts:64 | a word followed by a run of non-slug characters collapses to the word and at most one hyphen |
| Slug.CollapsePadded | app/app/api/articles/upload/route.ts:64 | a word between two runs of non-slug characters collapses to the word with at most one hyphen on each side |
| Slug.StripGaps | app/app/api/articles/upload/route.ts:65 | hyphens around a word with hyphen-free ends are all stripped |
| Slug.LowerAround | app/app/api/articles/upload/route.ts:63 | lower-casing text around a word of slug characters leaves the word in place |
| Slug.SlugifyTrimsEnds | app/app/api/articles/upload/route.ts:62-65 | runs of non-slug characters before and after a single word are dropped entirely: the slug is the word |
| Heading.WhitespaceEnd | app/app/api/articles/upload/route.ts:38 | the greedy end of a `\s+` run |
| Heading.LineEnd | app/app/api/articles/upload/route.ts:38 | the greedy end of `.+`: the next line terminator or the end of input |
| Heading.LineEndUnique | app/app/api/articles/upload/route.ts:38 | any position that ends a run of non-terminators at a terminator or the end is that line end |
| Heading.LastNonTerminator | app/app/api/articles/upload/route.ts:38 | the last character in a range that is not a line terminator, or None iff every one is |
| Heading.GroupAt | app/app/api/articles/upload/route.ts:38 | the captured group at a line start is the one the backtracking matcher prefers, and None iff the pattern cannot match there |
| Heading.GroupAtRun | app/app/api/articles/upload/route.ts:38 | when the white-space run stops before the end, the group starts after it and runs to the line end |
| Heading.GroupAtBacktracked | app/app/api/articles/upload/route.ts:38 | when white space runs to the end of input, the matcher backs off to the last non-terminator |
| Heading.NoBacktrackedGroup | app/app/api/articles/upload/route.ts:38 | with only terminators after the `#` and one blank, there is no match |
| Heading.FirstMatchFrom | app/app/api/articles/upload/route.ts:38 | the leftmost match from a position, preferred group first, or None iff none |
| Heading.FirstMatch | app/app/api/articles/upload/route.ts:38 | the match `String.match` returns, or None iff the pattern matches nowhere |
| Heading.HeadingText | app/app/api/articles/upload/route.ts:38-40 | the captured heading text of the preferred match, or None iff there is no match |
| Heading.HeadingCaptured | app/app/api/articles/upload/route.ts:38-40 | `#`, blanks, a title, then a line break or the end: the title is captured |
| Heading.BlankHeadingAtEnd | app/app/api/articles/upload/route.ts:38 | `"#  "` matches by backtracking and captures one blank |
| Heading.NoHashNoHeading | app/app/api/articles/upload/route.ts:38 | without a `#` there is no heading |
| UploadRoute.UploadExtension | app/app/api/articles/upload/route.ts:29 | the extension is "." plus the text after the last dot, or "." plus the whole name when there is no dot |
| UploadRoute.DefaultTitle | app/app/api/articles/upload/route.ts:33 | the file name with the first occurrence of the extension removed (putting it back at that position gives the name again), and the name unchanged when the extension does not occur |
| UploadRoute.MarkdownTitle | app/app/api/articles/upload/route.ts:33-41 | a custom title wins; otherwise the trimmed heading text; otherwise the default title |
| UploadRoute.Save | app/app/api/articles/upload/route.ts:61-80 | creates one article at the end (201) with the given title and content, keeping slugs unique; its slug is the first free candidate of the slugified title; publishedAt is the route's clock reading and createdAt and updatedAt the store's later one |
| UploadRoute.UploadFile | app/app/api/articles/upload/route.ts:17-80 | no file gives 400; .md is stored trimmed with the Markdown title; .docx is stored trimmed, or gives 500 when extraction fails; .pdf and other extensions give 400 and store nothing; a stored article gets the first free candidate of its slugified title, the route's clock reading as publishedAt, the store's as createdAt and updatedAt, and no views |
| UploadRoute.UploadText | app/app/api/articles/upload/route.ts:83-112 | a missing title or content gives 400 and stores nothing; otherwise the content is stored as given (201), with the first free candidate of the slugified title as slug, the route's clock reading as publishedAt and the store's as createdAt and updatedAt |
| UploadRoute.Post | app/app/api/articles/upload/route.ts:13-15 | a multipart content type selects the file branch, anything else the JSON branch |
| UploadRoute.DotlessNameIsItsOwnExtension | app/app/api/articles/upload/route.ts:29 | a name without a dot is its own extension, so a file named `md` counts as Markdown |
| UploadRoute.HeadingNamesMarkdownUpload | app/app/api/articles/upload/route.ts:35-41 | a Markdown file opening with a `# ` heading is titled by that heading |
| ArticlesRoute.Get | app/api/articles/route.ts:13-30 | `simple=true` gives the projected list sorted by publishedAt descending (a permutation); otherwise the full stored list |
| ArticlesRoute.CreateFromTitle | app/api/articles/route.ts:57-70 | appends one article whose slug is the least free candidate of the slugified title: the title's own slug when no article uses it, otherwise the first unused `-k` form |
| ArticlesRoute.Post | app/api/articles/route.ts:43-75 | 400 and no change iff title or content is missing; otherwise 201 with one article appended, publishedAt defaulting to the route's clock reading, createdAt and updatedAt the store's own reading, views 0, and as slug the least free candidate of the slugified title |
| Http.Truthy | app/api/articles/route.ts:49 | definition: present and not the empty string |
| ArticlesRoute.Delete | app/api/articles/route.ts:88-109 | 400 without an id, 404 iff the id is unknown, otherwise success with the articles removed |
| ArticlesRoute.DeleteTwice | app/api/articles/route.ts:100-107 | deleting the same id twice gives 404 the second time |
| ArticlesRoute.CreateThenDelete | app/api/articles/route.ts:65-109 | deleting a just-created article restores the store |
| ArticlesRoute.DeleteAppended | app/api/articles/route.ts:100-109 | deleting the last-appended article with a fresh id restores the earlier store |
| ArticlesRoute.DeleteKeepsSlugsUnique | app/api/articles/route.ts:88-109 | a delete keeps slugs distinct |
| ProjectsRoute.Patch | app/app/api/projects/route.ts:26-54 | 400 iff the id is missing (checked first); then 400 iff no field is truthy; then 404 iff the id is unknown; otherwise the updated project, with nothing changed on failure |
| ProjectsRoute.FoundIsFirst | app/app/api/projects/route.ts:45 | the project the update returns is the first with the id, updated |
| ProjectsRoute.EmptyFieldsRejected | app/app/api/projects/route.ts:38-43 | all fields empty strings gives 400 |
| ProjectsRoute.EmptyFieldClearsBesideTruthyOne | app/app/api/projects/route.ts:38-45 | an empty field sent next to a truthy one clears the stored value |
| ImageRoute.DropTrailingSlashes | app/app/api/upload/image/route.ts:46 | removes exactly the trailing slashes |
| ImageRoute.Basename | app/app/api/upload/image/route.ts:46 | the last path component contains no slash |
| ImageRoute.Extname | app/app/api/upload/image/route.ts:46 | empty, or a dot followed by no dot or slash, and a proper suffix of the base name; empty exactly when the base name has no dot after its first character or is `..` |
| ImageRoute.Upload | app/app/api/upload/image/route.ts:9-65 | 400 iff no file; then 400 for a type outside jpeg/png/gif/webp; then 400 iff over 2 MiB; otherwise the URL `/projects/project-<timestamp>-<random><ext>` |
| ImageRoute.ImageUrlShape | app/app/api/upload/image/route.ts:44-60 | the URL starts with `/projects/project-<timestamp>-<random>` and ends with the extension |
| ImageRoute.SizeLimitInclusive | app/app/api/upload/image/route.ts:31-37 | exactly 2 MiB is accepted, one byte more is rejected |
| ImageRoute.FileNamesDiffer | app/app/api/upload/image/route.ts:44-47 | different timestamps give different file names |
| ImageRoute.DigitsBeforeDash | app/app/api/upload/image/route.ts:47 | the timestamp is recoverable from the file name |
| ImageRoute.FirstDashAfterDigits | app/app/api/upload/image/route.ts:47 | the first dash after `project-` ends the timestamp |
| ImageRoute.BasenameOfPlainName | app/app/api/upload/image/route.ts:46 | a name without slashes is its own base name |
| ImageRoute.ExtnameWithoutDot | app/app/api/upload/image/route.ts:46 | a name without a dot has no extension |
| ImageRoute.ExtnameOfHiddenName | app/app/api/upload/image/route.ts:46 | a leading dot alone does not start an extension |
| ImageRoute.ExtnameOfParent | app/app/api/upload/image/route.ts:46 | `..` has no extension |
| ImageRoute.ExtnameOfStem | app/app/api/upload/image/route.ts:46 | `stem.ext` has extension `.ext` |
| ChatRoute.Summary | app/app/api/chat/route.ts:93 | the first 500 characters, plus "..." iff the text is longer than 500 |
| ChatRoute.Newest | app/app/api/chat/route.ts:80-82 | at most 5 articles, newest publishedAt first, taken from the store, none left out newer than one kept |
| ChatRoute.TopOfSorted | app/app/api/chat/route.ts:80-82 | the first n of a descending sort are sorted, taken from the store, and dominate the rest |
| ChatRoute.Entries | app/app/api/chat/route.ts:83-96 | one entry per article, in order |
| ChatRoute.Entry | app/app/api/chat/route.ts:95 | an entry opens with `### ` and the title on its own line, ends with a newline, and is at most the title plus 509 characters long whatever the article's length |
| ChatRoute.BuildArticlesContext | app/app/api/chat/route.ts:72-103 | no articles (which includes an unreadable store, since the listing returns none then) gives the "no articles" section; a listing or digest that throws gives the failure section; otherwise exactly the digest of the newest five articles, with its header and ending in a newline |
| ChatRoute.Digest | app/app/api/chat/route.ts:96-98 | starts with the header and ends with a newline |
| ChatRoute.DigestEntryAt | app/app/api/chat/route.ts:95-98 | entry i sits at its offset in the digest, and the next follows after one newline |
| ChatRoute.EntryPlaced | app/app/api/chat/route.ts:95-98 | in the digest's shape, entry i sits at its offset and the character after it is a newline when another entry comes next; the last entry is followed by the digest's final newline and nothing else |
| ChatRoute.RecentHistory | app/app/api/chat/route.ts:132 | the last min(20, length) history entries, in order |
| ChatRoute.RecentHistoryIdempotent | app/app/api/chat/route.ts:132 | windowing twice equals windowing once |
| ChatRoute.RecentHistorySlides | app/app/api/chat/route.ts:132 | once the history is full, a new entry slides the window by one |
| ChatRoute.Conversation | app/app/api/chat/route.ts:143-153 | the system prompt first, then the windowed history, then the user message last |
| ChatRoute.Chat | app/app/api/chat/route.ts:105-180 | 400 iff the message is missing or blank, checked before the 500 for a missing key; a thrown request or unparsable reply gives 500 with the generic server message; an error status gives 500 with the service message; otherwise 200, with the fixed apology when the reply has no content; a reply is never empty |
| ChatRoute.BlankMessageBeforeConfig | app/app/api/chat/route.ts:110-123 | a blank message gives 400 even without an API key |
| ChatRoute.ValidMessage | app/app/api/chat/route.ts:110 | a message is accepted exactly when it is present and holds a character that is not white space |

## Left out

- The regex Markdown clean-up and the paragraph split before chunking are a function parameter `paragraphsOf`. The plain-text clean-up in the chat context is a parameter `plainText`. Both are regex pipelines with no property of their own here.
- Embeddings, vector upsert and search, and the chat completion call are function parameters that may fail. The HTTP details of the call (endpoint, model, headers) are not modelled.
- The relevance percentage `(score * 100).toFixed(1)` is floating point. It is a parameter `percent`.
- Timestamps, `Date.now()` ids, `Math.random` suffixes and `new Date(...).getTime()` are parameters. Dates that parse to NaN, and the inconsistent comparator they give `sort`, are not modelled.
- Text.LowerAscii: lower-cases only A–Z, not full Unicode `toLowerCase`, because case mapping tables are out of scope.
- String lengths count Unicode scalar values. JavaScript counts UTF-16 code units, so the 500-character limits differ for text outside the Basic Multilingual Plane.
- `decodeURIComponent` is a parameter. The exception it throws on malformed input is not modelled.
- Word `.docx` extraction is a parameter result (text or error message).
- File reads and writes are not modelled: the stores are in-memory sequences. Failed writes, unreadable JSON beyond the stats default, and the lost-update race between concurrent read-modify-write requests are absent.
- JSON bodies are modelled as optional string fields. Non-string values (numbers, objects, `null` as distinct from absent) are not, and neither is a body that fails to parse, which the source turns into a 500.
- The GET handler of the projects route, the article view and stats routes, the admin index route and the older chat route are thin wrappers with no logic of their own.
- ArticlesRoute.Get: the sort is stated as descending and a permutation. It is not stated to be stable, because the model's insertion sort is not checked against JavaScript's stable sort.
- ChatRoute.Newest: the same; among articles with equal dates, which five are chosen is not stated.
- Rag.IndexAllArticles: the per-article outcome is stated through the functional `IndexArticle`. The console logging and the rejected-promise channel are not modelled.
- The system prompt of the chat route is a parameter `persona`.
