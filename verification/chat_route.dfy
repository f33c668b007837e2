/**
 * `POST /api/chat`: validates the message, adds a digest of the newest
 * articles to the fixed persona prompt, keeps the last 20 history entries,
 * and relays the conversation to the chat-completion service. The persona
 * text, the service and the date and Markdown-stripping helpers are
 * parameters.
 */
module ChatRoute {
  import opened Wrappers
  import opened Text
  import opened Seqs
  import opened Http
  import opened Articles

  const EmptyMessageMessage: string := "消息不能为空"
  const MissingConfigMessage: string := "API 配置缺失，请检查环境变量"
  const UpstreamFailedMessage: string := "AI 服务暂时不可用，请稍后重试"
  const FallbackReply: string := "抱歉，我暂时无法回答这个问题。"
  const ServerErrorMessage: string := "服务器错误，请稍后重试"

  const NoArticlesContext: string := "\n## 站长文章\n暂无文章。\n"
  const ArticlesFailedContext: string := "\n## 站长文章\n加载文章失败。\n"
  const ContextHeader: string := "\n## 站长文章（最新 5 篇摘要）\n"

  /** Characters of plain text kept per article. */
  const SummaryLength: nat := 500
  /** Articles in the digest. */
  const DigestSize: nat := 5
  /** History entries relayed. */
  const HistoryWindow: nat := 20

  datatype ChatMessage = ChatMessage(role: string, content: string)

  function Min(a: nat, b: nat): nat {
    if a <= b then a else b
  }

  /** The first 500 characters of the plain text, with `...` appended when
      something was cut. */
  function Summary(plain: string): (s: string)
    ensures |s| <= SummaryLength + 3
    ensures |plain| <= SummaryLength ==> s == plain
    ensures |plain| > SummaryLength ==> IsPrefix(plain[..SummaryLength], s) && s[SummaryLength..] == "..."
  {
    plain[..Min(SummaryLength, |plain|)] + (if |plain| > SummaryLength then "..." else "")
  }

  /** The sort key `new Date(publishedAt).getTime()`, through a date parser. */
  function ByPublished(timeOf: string -> int): Article -> int {
    (a: Article) => timeOf(a.publishedAt)
  }

  /** The newest five articles, newest first. */
  function Newest(articles: seq<Article>, timeOf: string -> int): (r: seq<Article>)
    ensures |r| == Min(DigestSize, |articles|)
    ensures SortedDesc(r, ByPublished(timeOf))
    ensures multiset(r) <= multiset(articles)
    ensures forall a, i :: a in multiset(articles) - multiset(r) && 0 <= i < |r| ==>
              timeOf(a.publishedAt) <= timeOf(r[i].publishedAt)
  {
    var sorted := SortDesc(articles, ByPublished(timeOf));
    var n := Min(DigestSize, |articles|);
    TopOfSorted(articles, timeOf, sorted, n);
    sorted[..n]
  }

  /** The first `n` of the articles sorted newest first are the `n` newest. */
  lemma TopOfSorted(articles: seq<Article>, timeOf: string -> int, sorted: seq<Article>, n: nat)
    requires SortedDesc(sorted, ByPublished(timeOf)) && multiset(sorted) == multiset(articles) && n <= |sorted|
    ensures SortedDesc(sorted[..n], ByPublished(timeOf))
    ensures multiset(sorted[..n]) <= multiset(articles)
    ensures forall a, i :: a in multiset(articles) - multiset(sorted[..n]) && 0 <= i < n ==>
              timeOf(a.publishedAt) <= timeOf(sorted[..n][i].publishedAt)
  {
    var key := ByPublished(timeOf);
    SortedPrefixDominates(sorted, key, n);
    PrefixSubMultiset(sorted, n);
    forall a, i | a in multiset(articles) - multiset(sorted[..n]) && 0 <= i < n
      ensures timeOf(a.publishedAt) <= timeOf(sorted[..n][i].publishedAt)
    {
      assert key(a) <= key(sorted[i]);
    }
  }

  /** The digest entry of one article. */
  function Entry(a: Article, plainText: string -> string): (e: string)
    ensures IsPrefix("### " + a.title + "\n", e)
    ensures e[|e| - 1] == '\n'
    ensures |e| <= |a.title| + SummaryLength + 9
  {
    "### " + a.title + "\n" + Summary(plainText(a.content)) + "\n"
  }

  function Entries(articles: seq<Article>, plainText: string -> string): (es: seq<string>)
    ensures |es| == |articles|
    ensures forall i :: 0 <= i < |articles| ==> es[i] == Entry(articles[i], plainText)
  {
    seq(|articles|, i requires 0 <= i < |articles| => Entry(articles[i], plainText))
  }

  /** `buildArticlesContext`: a fixed note when there is no article;
      otherwise the digest of the newest five articles. `stored` is what the
      store listing returns: that listing already turns an unreadable or
      unparsable file into no articles, so `None` stands only for a listing
      or digest that throws (a parsed file without an `articles` array, or an
      article whose content is not a string), which gives the failure note. */
  function BuildArticlesContext(stored: Option<seq<Article>>, timeOf: string -> int, plainText: string -> string)
    : (context: string)
    ensures stored.None? ==> context == ArticlesFailedContext
    ensures stored == Some([]) ==> context == NoArticlesContext
    ensures stored.Some? && stored.value != [] ==>
              IsPrefix(ContextHeader, context) && context[|context| - 1] == '\n'
    ensures stored.Some? && stored.value != [] ==> context == Digest(Newest(stored.value, timeOf), plainText)
  {
    match stored
    case None => ArticlesFailedContext
    case Some(articles) =>
      if |articles| == 0 then NoArticlesContext
      else Digest(Newest(articles, timeOf), plainText)
  }

  /** A header, then the entries of `newest` joined by line breaks, then a
      final line break. */
  function Digest(newest: seq<Article>, plainText: string -> string): (context: string)
    ensures IsPrefix(ContextHeader, context) && context[|context| - 1] == '\n'
  {
    var joined := Join(Entries(newest, plainText), "\n");
    PrefixOfConcat(ContextHeader, joined, "\n");
    ContextHeader + joined + "\n"
  }

  /** Where entry `i` starts inside the digest. */
  function EntryOffset(newest: seq<Article>, plainText: string -> string, i: nat): nat
    requires i <= |newest|
  {
    |ContextHeader| + JoinOffset(Entries(newest, plainText), "\n", i)
  }

  /** Entry `i` of the digest belongs to article `i` of `newest` and sits at
      its offset, entries separated by one line break. */
  lemma DigestEntryAt(newest: seq<Article>, plainText: string -> string, i: nat)
    requires i < |newest|
    ensures var context := Digest(newest, plainText);
            var entry := Entry(newest[i], plainText);
            var off := EntryOffset(newest, plainText, i);
            && off + |entry| <= |context|
            && context[off..][..|entry|] == entry
            && (i + 1 < |newest| ==> off + |entry| + 1 == EntryOffset(newest, plainText, i + 1))
  {
    var es := Entries(newest, plainText);
    EntryPlaced(ContextHeader + Join(es, "\n") + "\n", es, i, EntryOffset(newest, plainText, i), Entry(newest[i], plainText));
  }

  /** The placement of entry `i` in a digest built from any entry list: at
      its offset, followed by one line break when another entry comes next,
      and otherwise by the digest's final line break and nothing else. */
  lemma EntryPlaced(context: string, es: seq<string>, i: nat, off: nat, entry: string)
    requires context == ContextHeader + Join(es, "\n") + "\n"
    requires i < |es| && entry == es[i] && off == |ContextHeader| + JoinOffset(es, "\n", i)
    ensures off + |entry| <= |context| && context[off..][..|entry|] == entry
    ensures i + 1 < |es| ==> off + |entry| + 1 == |ContextHeader| + JoinOffset(es, "\n", i + 1)
    ensures i + 1 < |es| ==> off + |entry| < |context| && context[off + |entry|] == '\n'
    ensures i + 1 == |es| ==> off + |entry| <= |context| && context[off + |entry|..] == "\n"
  {
    PartPlaced(context, ContextHeader, es, "\n", "\n", i, off, entry);
    if i + 1 < |es| {
      OccursAtChar(context, "\n", off + |entry|);
    }
  }

  /** `history.slice(-20)`: the last 20 entries, or all when fewer. */
  function RecentHistory(history: seq<ChatMessage>): (r: seq<ChatMessage>)
    ensures |r| == Min(HistoryWindow, |history|)
    ensures r == history[|history| - |r|..]
  {
    history[|history| - Min(HistoryWindow, |history|)..]
  }

  /** Windowing twice is windowing once. */
  lemma RecentHistoryIdempotent(history: seq<ChatMessage>)
    ensures RecentHistory(RecentHistory(history)) == RecentHistory(history)
  {}

  /** Appending an entry slides the window by one once it is full. */
  lemma RecentHistorySlides(history: seq<ChatMessage>, m: ChatMessage)
    requires |history| >= HistoryWindow
    ensures RecentHistory(history + [m]) == RecentHistory(history)[1..] + [m]
  {
    var h := history + [m];
    assert h[|h| - HistoryWindow..] == history[|history| - HistoryWindow + 1..] + [m];
  }

  /** The conversation sent upstream: the system prompt, the recent history,
      then the user's message. */
  function Conversation(systemPrompt: string, history: seq<ChatMessage>, message: string): (msgs: seq<ChatMessage>)
    ensures |msgs| == |RecentHistory(history)| + 2
    ensures msgs[0] == ChatMessage("system", systemPrompt)
    ensures msgs[1..|msgs| - 1] == RecentHistory(history)
    ensures msgs[|msgs| - 1] == ChatMessage("user", message)
  {
    [ChatMessage("system", systemPrompt)] + RecentHistory(history) + [ChatMessage("user", message)]
  }

  /** The message is rejected when missing, not a string, or blank. */
  predicate ValidMessage(message: Option<string>)
    ensures ValidMessage(message) <==>
              message.Some? && exists i :: 0 <= i < |message.value| && !IsWhitespace(message.value[i])
  {
    match message
    case None => false
    case Some(m) => TrimBlank(m); Trim(m) != ""
  }

  /** What the chat-completion call comes back with. */
  datatype Completion =
    | Threw                            // the request is rejected or the body is not JSON
    | ErrorStatus                      // the service replies with a non-2xx status
    | Answered(content: Option<string>) // the content of the first choice, if any

  /** POST. Every throw after validation lands in the route's catch-all,
      which answers 500 with a generic message. */
  function Chat(message: Option<string>, history: seq<ChatMessage>, apiKey: Option<string>,
                stored: Option<seq<Article>>, persona: string, timeOf: string -> int, plainText: string -> string,
                complete: seq<ChatMessage> -> Completion): (r: Response<string>)
    ensures !ValidMessage(message) <==> r == Fail(StatusBadRequest, EmptyMessageMessage)
    ensures ValidMessage(message) && !Truthy(apiKey) ==> r == Fail(StatusServerError, MissingConfigMessage)
    ensures ValidMessage(message) && Truthy(apiKey) ==>
              var sent := Conversation(persona + BuildArticlesContext(stored, timeOf, plainText), history, message.value);
              && (complete(sent).Threw? <==> r == Fail(StatusServerError, ServerErrorMessage))
              && (complete(sent).ErrorStatus? <==> r == Fail(StatusServerError, UpstreamFailedMessage))
              && (complete(sent).Answered? <==> r.Reply?)
              && (complete(sent).Answered? && Truthy(complete(sent).content) ==>
                    r == Reply(StatusOk, complete(sent).content.value))
              && (complete(sent).Answered? && !Truthy(complete(sent).content) ==> r == Reply(StatusOk, FallbackReply))
    ensures r.Reply? ==> r.status == StatusOk && r.body != ""
  {
    if !ValidMessage(message) then Fail(StatusBadRequest, EmptyMessageMessage)
    else if !Truthy(apiKey) then Fail(StatusServerError, MissingConfigMessage)
    else
      var sent := Conversation(persona + BuildArticlesContext(stored, timeOf, plainText), history, message.value);
      match complete(sent)
      case Threw => Fail(StatusServerError, ServerErrorMessage)
      case ErrorStatus => Fail(StatusServerError, UpstreamFailedMessage)
      case Answered(content) => Reply(StatusOk, if Truthy(content) then content.value else FallbackReply)
  }

  /** A blank message is rejected before the configuration is looked at. */
  lemma BlankMessageBeforeConfig(history: seq<ChatMessage>, stored: Option<seq<Article>>, persona: string,
                                 timeOf: string -> int, plainText: string -> string,
                                 complete: seq<ChatMessage> -> Completion)
    ensures Chat(Some("  \n"), history, None, stored, persona, timeOf, plainText, complete)
            == Fail(StatusBadRequest, EmptyMessageMessage)
  {
    TrimAllWhitespace("  \n");
  }
}
