/**
 * The article chunker of the RAG pipeline (`chunkArticle`): a fold over the
 * article's paragraphs that accumulates short paragraphs into a buffer,
 * flushes the buffer once it exceeds the maximum chunk size keeping a short
 * overlap, and cuts over-long paragraphs into overlapping fixed-size windows.
 *
 * Markdown stripping and the split on blank lines are regular-expression
 * rewrites outside this model; the chunker starts from the resulting
 * paragraph sequence, which a caller supplies as `paragraphsOf(content)`.
 */
module Chunker {
  import opened Text

  /** Largest buffer kept without flushing, and the width of a window. */
  const MaxChunkSize: nat := 500
  /** Characters of a flushed buffer carried into the next buffer. */
  const ChunkOverlap: nat := 50
  /** A buffer is emitted only when it is longer than this. */
  const MinChunkSize: nat := 100
  /** Distance between the starts of consecutive windows of one paragraph. */
  const SplitPoint: nat := MaxChunkSize - ChunkOverlap

  /** Separator placed between paragraphs accumulated in one buffer. */
  const ParagraphBreak: string := "\n\n"

  datatype TextChunk = TextChunk(text: string, articleId: string, articleTitle: string, chunkIndex: nat)

  /** The loop state: chunks emitted so far and the pending buffer (`currentChunk`).
      The running `chunkIndex` of the loop is always `|chunks|`. */
  datatype State = State(chunks: seq<TextChunk>, buffer: string)

  /** Every chunk is numbered by its position and carries the given article. */
  predicate Numbered(chunks: seq<TextChunk>, articleId: string, articleTitle: string) {
    forall i :: 0 <= i < |chunks| ==> chunks[i] == TextChunk(chunks[i].text, articleId, articleTitle, i)
  }

  /** Every chunk text is at most `bound` characters long. */
  predicate Bounded(chunks: seq<TextChunk>, bound: nat) {
    forall i :: 0 <= i < |chunks| ==> |chunks[i].text| <= bound
  }

  /** Emits `text`, trimmed, as the next chunk. */
  function Push(chunks: seq<TextChunk>, text: string, articleId: string, articleTitle: string): (r: seq<TextChunk>)
    ensures |r| == |chunks| + 1 && r[..|chunks|] == chunks
    ensures r[|chunks|].chunkIndex == |chunks| && r[|chunks|].text == Trim(text)
    ensures r[|chunks|].articleId == articleId && r[|chunks|].articleTitle == articleTitle
  {
    chunks + [TextChunk(Trim(text), articleId, articleTitle, |chunks|)]
  }

  /** Where the `k`-th window of an over-long paragraph starts. */
  function WindowStart(k: nat): nat {
    if k == 0 then 0 else WindowStart(k - 1) + SplitPoint
  }

  /** Windows start at the multiples of `SplitPoint`. */
  lemma {:induction false} WindowStartIsMultiple(k: nat)
    ensures WindowStart(k) == k * SplitPoint
  {
    if k > 0 {
      WindowStartIsMultiple(k - 1);
    }
  }

  /** How many windows the inner loop cuts from a paragraph of length `len`. */
  function WindowCount(len: nat): (n: nat)
    ensures WindowStart(n) <= len
    ensures len - WindowStart(n) <= MaxChunkSize
    ensures n > 0 ==> len - WindowStart(n - 1) > MaxChunkSize
  {
    if len > MaxChunkSize then
      var n := 1 + WindowCount(len - SplitPoint);
      WindowShift(n - 1);
      n
    else 0
  }

  /** Shifting the window numbering by one shifts the start by `SplitPoint`. */
  lemma {:induction false} WindowShift(k: nat)
    ensures WindowStart(k + 1) == SplitPoint + WindowStart(k)
  {}

  /** Window `k` lies inside every paragraph that yields more than `k` windows. */
  lemma {:induction false} WindowInside(len: nat, k: nat)
    requires k < WindowCount(len)
    ensures WindowStart(k) + MaxChunkSize <= len
    decreases k
  {
    if k > 0 {
      WindowInside(len - SplitPoint, k - 1);
      WindowShift(k - 1);
    }
  }

  /** A paragraph longer than a window yields one window more than its rest. */
  lemma WindowCountStep(len: nat)
    requires len > MaxChunkSize
    ensures WindowCount(len) == 1 + WindowCount(len - SplitPoint)
  {}

  /** The `k`-th window of `s`: `MaxChunkSize` characters from `WindowStart(k)`. */
  function Window(s: string, k: nat): (w: string)
    requires k < WindowCount(|s|)
    ensures |w| == MaxChunkSize
  {
    WindowInside(|s|, k);
    s[WindowStart(k) .. WindowStart(k) + MaxChunkSize]
  }

  /** The inner `while` loop over an over-long paragraph: while more than
      `MaxChunkSize` characters remain, emit the first `MaxChunkSize` and drop
      the first `SplitPoint`. What is left becomes the new buffer. */
  function CutWindows(chunks: seq<TextChunk>, remaining: string, articleId: string, articleTitle: string): (st: State)
    ensures |st.chunks| == |chunks| + WindowCount(|remaining|)
    ensures st.chunks[..|chunks|] == chunks
    decreases |remaining|
  {
    if |remaining| > MaxChunkSize then
      var pushed := Push(chunks, remaining[..MaxChunkSize], articleId, articleTitle);
      var st := CutWindows(pushed, remaining[SplitPoint..], articleId, articleTitle);
      WindowCountStep(|remaining|);
      PrefixTransitive(st.chunks, pushed, chunks);
      st
    else
      State(chunks, remaining)
  }

  /** The leftover of the rest of a paragraph is the leftover of the paragraph. */
  lemma LeftoverOfRest(s: string)
    requires |s| > MaxChunkSize
    ensures WindowStart(WindowCount(|s| - SplitPoint)) <= |s| - SplitPoint
    ensures s[SplitPoint..][WindowStart(WindowCount(|s| - SplitPoint))..] == s[WindowStart(WindowCount(|s|))..]
  {
    var n := WindowCount(|s| - SplitPoint);
    WindowCountStep(|s|);
    WindowShift(n);
    SuffixOfSuffix(s, SplitPoint, WindowStart(n));
  }

  /** What the inner loop leaves is the paragraph from the start of the
      window after the last one cut. */
  lemma {:induction false} CutWindowsBuffer(chunks: seq<TextChunk>, remaining: string, articleId: string, articleTitle: string)
    ensures CutWindows(chunks, remaining, articleId, articleTitle).buffer
            == remaining[WindowStart(WindowCount(|remaining|))..]
    decreases |remaining|
  {
    if |remaining| > MaxChunkSize {
      var pushed := Push(chunks, remaining[..MaxChunkSize], articleId, articleTitle);
      var rest := remaining[SplitPoint..];
      CutWindowsBuffer(pushed, rest, articleId, articleTitle);
      assert CutWindows(chunks, remaining, articleId, articleTitle) == CutWindows(pushed, rest, articleId, articleTitle);
      LeftoverOfRest(remaining);
    } else {
      assert WindowCount(|remaining|) == 0;
    }
  }

  /** Window `k` read off at its start `a`. */
  lemma WindowAt(s: string, k: nat, a: nat)
    requires k < WindowCount(|s|) && a == WindowStart(k)
    ensures a + MaxChunkSize <= |s| && Window(s, k) == s[a..a + MaxChunkSize]
  {
    WindowInside(|s|, k);
  }

  /** Dropping the first `SplitPoint` characters renumbers the windows down by one. */
  lemma WindowOfRest(s: string, j: nat)
    requires |s| > MaxChunkSize
    requires j < WindowCount(|s| - SplitPoint)
    ensures j + 1 < WindowCount(|s|)
    ensures Window(s[SplitPoint..], j) == Window(s, j + 1)
  {
    WindowCountStep(|s|);
    WindowShift(j);
    WindowsAligned(s, j, WindowStart(j));
  }

  /** Window `j` of the rest and window `j + 1` of the whole cover the same characters. */
  lemma WindowsAligned(s: string, j: nat, a: nat)
    requires |s| > MaxChunkSize && j < WindowCount(|s| - SplitPoint) && j + 1 < WindowCount(|s|)
    requires a == WindowStart(j) && WindowStart(j + 1) == SplitPoint + a
    ensures Window(s[SplitPoint..], j) == Window(s, j + 1)
  {
    WindowAt(s[SplitPoint..], j, a);
    WindowAt(s, j + 1, SplitPoint + a);
    SliceOfSuffix(s, SplitPoint, a, a + MaxChunkSize);
  }

  /** The inner loop leaves at most `MaxChunkSize` characters. */
  lemma CutWindowsBufferBound(chunks: seq<TextChunk>, remaining: string, articleId: string, articleTitle: string)
    ensures |CutWindows(chunks, remaining, articleId, articleTitle).buffer| <= MaxChunkSize
  {
    CutWindowsBuffer(chunks, remaining, articleId, articleTitle);
  }

  /** The first chunk the inner loop emits is the paragraph's first window. */
  lemma FirstWindowChunk(chunks: seq<TextChunk>, remaining: string, articleId: string, articleTitle: string)
    requires |remaining| > MaxChunkSize
    ensures var st := CutWindows(chunks, remaining, articleId, articleTitle);
            |chunks| < |st.chunks| && 0 < WindowCount(|remaining|)
            && st.chunks[|chunks|] == TextChunk(Trim(Window(remaining, 0)), articleId, articleTitle, |chunks|)
  {
    var pushed := Push(chunks, remaining[..MaxChunkSize], articleId, articleTitle);
    var st := CutWindows(pushed, remaining[SplitPoint..], articleId, articleTitle);
    assert CutWindows(chunks, remaining, articleId, articleTitle) == st;
    assert st.chunks[|chunks|] == st.chunks[..|pushed|][|chunks|] == pushed[|chunks|];
    WindowAt(remaining, 0, 0);
  }

  /** The windows are cut `SplitPoint` apart, each is `MaxChunkSize` wide
      before trimming, they are numbered on from the chunks already emitted,
      and the leftover of at most `MaxChunkSize` characters becomes the buffer. */
  lemma CutWindowsSpec(chunks: seq<TextChunk>, remaining: string, articleId: string, articleTitle: string)
    ensures var st := CutWindows(chunks, remaining, articleId, articleTitle);
            && |st.buffer| <= MaxChunkSize
            && forall i :: |chunks| <= i < |st.chunks| ==>
                 st.chunks[i] == TextChunk(Trim(Window(remaining, i - |chunks|)), articleId, articleTitle, i)
  {
    var st := CutWindows(chunks, remaining, articleId, articleTitle);
    CutWindowsBufferBound(chunks, remaining, articleId, articleTitle);
    forall i | |chunks| <= i < |st.chunks|
      ensures i - |chunks| < WindowCount(|remaining|)
      ensures st.chunks[i] == TextChunk(Trim(Window(remaining, i - |chunks|)), articleId, articleTitle, i)
    {
      CutWindowsChunk(chunks, remaining, articleId, articleTitle, i);
    }
  }

  /** Chunk `i` emitted by the inner loop is window `i - |chunks|`, trimmed. */
  lemma {:induction false} CutWindowsChunk(chunks: seq<TextChunk>, remaining: string, articleId: string, articleTitle: string, i: nat)
    requires |chunks| <= i < |CutWindows(chunks, remaining, articleId, articleTitle).chunks|
    ensures i - |chunks| < WindowCount(|remaining|)
    ensures CutWindows(chunks, remaining, articleId, articleTitle).chunks[i]
            == TextChunk(Trim(Window(remaining, i - |chunks|)), articleId, articleTitle, i)
    decreases |remaining|
  {
    assert |remaining| > MaxChunkSize;
    if i == |chunks| {
      FirstWindowChunk(chunks, remaining, articleId, articleTitle);
    } else {
      var pushed := Push(chunks, remaining[..MaxChunkSize], articleId, articleTitle);
      var rest := remaining[SplitPoint..];
      assert CutWindows(chunks, remaining, articleId, articleTitle) == CutWindows(pushed, rest, articleId, articleTitle);
      CutWindowsChunk(pushed, rest, articleId, articleTitle, i);
      WindowOfRest(remaining, i - |pushed|);
    }
  }

  /** Emitting a chunk keeps the numbering. */
  lemma PushNumbered(chunks: seq<TextChunk>, text: string, articleId: string, articleTitle: string)
    requires Numbered(chunks, articleId, articleTitle)
    ensures Numbered(Push(chunks, text, articleId, articleTitle), articleId, articleTitle)
  {}

  /** Emitting a text no longer than the bound keeps every chunk within it. */
  lemma PushBounded(chunks: seq<TextChunk>, text: string, articleId: string, articleTitle: string, bound: nat)
    requires Bounded(chunks, bound) && |text| <= bound
    ensures Bounded(Push(chunks, text, articleId, articleTitle), bound)
  {}

  /** The windows keep the numbering and are at most `MaxChunkSize` long. */
  lemma CutWindowsNumbered(chunks: seq<TextChunk>, remaining: string, articleId: string, articleTitle: string)
    ensures var st := CutWindows(chunks, remaining, articleId, articleTitle);
            && (Numbered(chunks, articleId, articleTitle) ==> Numbered(st.chunks, articleId, articleTitle))
            && forall i :: |chunks| <= i < |st.chunks| ==> |st.chunks[i].text| <= MaxChunkSize
  {
    var st := CutWindows(chunks, remaining, articleId, articleTitle);
    CutWindowsSpec(chunks, remaining, articleId, articleTitle);
    if Numbered(chunks, articleId, articleTitle) {
      forall i | 0 <= i < |st.chunks|
        ensures st.chunks[i] == TextChunk(st.chunks[i].text, articleId, articleTitle, i)
      {
        if i < |chunks| {
          assert st.chunks[i] == st.chunks[..|chunks|][i];
        }
      }
    }
  }

  /** One iteration of the outer `for` loop, over one paragraph. */
  function Step(st: State, paragraph: string, articleId: string, articleTitle: string): (r: State)
    ensures |st.chunks| <= |r.chunks| && r.chunks[..|st.chunks|] == st.chunks
    ensures |r.buffer| <= MaxChunkSize
    ensures |Trim(paragraph)| > MaxChunkSize ==> |r.chunks| > |st.chunks|
  {
    var p := Trim(paragraph);
    if |p| > MaxChunkSize then LongStep(st, p, articleId, articleTitle)
    else ShortStep(st, p, articleId, articleTitle)
  }

  /** The step over a trimmed paragraph longer than `MaxChunkSize`: flush a
      buffer longer than `MinChunkSize`, then cut the paragraph into windows. */
  function LongStep(st: State, p: string, articleId: string, articleTitle: string): (r: State)
    ensures |st.chunks| <= |r.chunks| && r.chunks[..|st.chunks|] == st.chunks
    ensures |r.buffer| <= MaxChunkSize
    ensures |p| > MaxChunkSize ==> |r.chunks| > |st.chunks|
  {
    var flushed := if |st.buffer| > MinChunkSize then Push(st.chunks, st.buffer, articleId, articleTitle)
                   else st.chunks;
    CutWindowsBufferBound(flushed, p, articleId, articleTitle);
    var r := CutWindows(flushed, p, articleId, articleTitle);
    PrefixTransitive(r.chunks, flushed, st.chunks);
    r
  }

  /** The step over a short trimmed paragraph: append it to the buffer, and
      flush the buffer, keeping its last `ChunkOverlap` characters, once it
      exceeds `MaxChunkSize`. */
  function ShortStep(st: State, p: string, articleId: string, articleTitle: string): (r: State)
    ensures |st.chunks| <= |r.chunks| <= |st.chunks| + 1 && r.chunks[..|st.chunks|] == st.chunks
    ensures |r.buffer| <= MaxChunkSize
    ensures |r.chunks| > |st.chunks| <==>
              |st.buffer| + (if |st.buffer| > 0 then |ParagraphBreak| else 0) + |p| > MaxChunkSize
    ensures |r.chunks| > |st.chunks| ==> |r.buffer| <= ChunkOverlap
  {
    var buffer := st.buffer + (if |st.buffer| > 0 then ParagraphBreak else "") + p;
    if |buffer| > MaxChunkSize then
      var overlapStart := if |buffer| - ChunkOverlap > 0 then |buffer| - ChunkOverlap else 0;
      State(Push(st.chunks, buffer, articleId, articleTitle), buffer[overlapStart..])
    else
      State(st.chunks, buffer)
  }

  /** A step over an over-long paragraph: flush, then cut windows. */
  lemma LongStepInvariant(st: State, p: string, articleId: string, articleTitle: string)
    requires |p| > MaxChunkSize
    ensures var r := LongStep(st, p, articleId, articleTitle);
            && |st.chunks| <= |r.chunks| && r.chunks[..|st.chunks|] == st.chunks
            && (Numbered(st.chunks, articleId, articleTitle) ==> Numbered(r.chunks, articleId, articleTitle))
            && |r.buffer| <= MaxChunkSize
            && forall i :: |st.chunks| <= i < |r.chunks| ==> |r.chunks[i].text| <= |st.buffer| + MaxChunkSize
  {
    var flushed := if |st.buffer| > MinChunkSize then Push(st.chunks, st.buffer, articleId, articleTitle)
                   else st.chunks;
    var r := CutWindows(flushed, p, articleId, articleTitle);
    assert r == LongStep(st, p, articleId, articleTitle);
    if |st.buffer| > MinChunkSize {
      if Numbered(st.chunks, articleId, articleTitle) {
        PushNumbered(st.chunks, st.buffer, articleId, articleTitle);
      }
    }
    PrefixTransitive(r.chunks, flushed, st.chunks);
    CutWindowsBufferBound(flushed, p, articleId, articleTitle);
    CutWindowsNumbered(flushed, p, articleId, articleTitle);
    forall i | |st.chunks| <= i < |r.chunks|
      ensures |r.chunks[i].text| <= |st.buffer| + MaxChunkSize
    {
      if i < |flushed| {
        assert r.chunks[i] == r.chunks[..|flushed|][i] == flushed[i];
      }
    }
  }

  /** A step only appends chunks, keeps their numbering, leaves a buffer of
      at most `MaxChunkSize` characters, and every chunk it emits is at most
      the old buffer, a paragraph break and a full paragraph long. */
  lemma StepInvariant(st: State, paragraph: string, articleId: string, articleTitle: string)
    ensures var r := Step(st, paragraph, articleId, articleTitle);
            && |st.chunks| <= |r.chunks| && r.chunks[..|st.chunks|] == st.chunks
            && (Numbered(st.chunks, articleId, articleTitle) ==> Numbered(r.chunks, articleId, articleTitle))
            && |r.buffer| <= MaxChunkSize
            && forall i :: |st.chunks| <= i < |r.chunks| ==>
                 |r.chunks[i].text| <= |st.buffer| + |ParagraphBreak| + MaxChunkSize
  {
    var p := Trim(paragraph);
    if |p| > MaxChunkSize {
      LongStepInvariant(st, p, articleId, articleTitle);
    } else {
      ShortStepInvariant(st, p, articleId, articleTitle);
    }
  }

  /** A step over a short paragraph emits at most the whole new buffer. */
  lemma ShortStepInvariant(st: State, p: string, articleId: string, articleTitle: string)
    requires |p| <= MaxChunkSize
    ensures var r := ShortStep(st, p, articleId, articleTitle);
            && |st.chunks| <= |r.chunks| && r.chunks[..|st.chunks|] == st.chunks
            && (Numbered(st.chunks, articleId, articleTitle) ==> Numbered(r.chunks, articleId, articleTitle))
            && |r.buffer| <= MaxChunkSize
            && forall i :: |st.chunks| <= i < |r.chunks| ==>
                 |r.chunks[i].text| <= |st.buffer| + |ParagraphBreak| + MaxChunkSize
  {
    var buffer := st.buffer + (if |st.buffer| > 0 then ParagraphBreak else "") + p;
    if |buffer| > MaxChunkSize {
      if Numbered(st.chunks, articleId, articleTitle) {
        PushNumbered(st.chunks, buffer, articleId, articleTitle);
      }
      var pushed := Push(st.chunks, buffer, articleId, articleTitle);
      assert pushed[|st.chunks|].text == Trim(buffer);
    }
  }

  /** The state after the outer loop has processed every paragraph, in order. */
  function Run(paragraphs: seq<string>, articleId: string, articleTitle: string): (r: State)
    ensures |r.buffer| <= MaxChunkSize
    ensures |paragraphs| > 0 ==> var before := Run(paragraphs[..|paragraphs| - 1], articleId, articleTitle).chunks;
                                 |before| <= |r.chunks| && r.chunks[..|before|] == before
  {
    if |paragraphs| == 0 then State([], "")
    else Step(Run(paragraphs[..|paragraphs| - 1], articleId, articleTitle), paragraphs[|paragraphs| - 1],
              articleId, articleTitle)
  }

  /** Throughout the outer loop the chunks are numbered by position and carry
      the article, the buffer never exceeds `MaxChunkSize`, and so no chunk
      exceeds two buffers' worth plus a paragraph break. */
  lemma {:induction false} RunInvariant(paragraphs: seq<string>, articleId: string, articleTitle: string)
    ensures var st := Run(paragraphs, articleId, articleTitle);
            && Numbered(st.chunks, articleId, articleTitle)
            && Bounded(st.chunks, MaxChunkSize + |ParagraphBreak| + MaxChunkSize)
            && |st.buffer| <= MaxChunkSize
  {
    if |paragraphs| > 0 {
      var init := paragraphs[..|paragraphs| - 1];
      RunInvariant(init, articleId, articleTitle);
      var before := Run(init, articleId, articleTitle);
      var after := Run(paragraphs, articleId, articleTitle);
      StepInvariant(before, paragraphs[|paragraphs| - 1], articleId, articleTitle);
      forall i | 0 <= i < |after.chunks|
        ensures |after.chunks[i].text| <= MaxChunkSize + |ParagraphBreak| + MaxChunkSize
      {
        if i < |before.chunks| {
          assert after.chunks[i] == after.chunks[..|before.chunks|][i] == before.chunks[i];
        }
      }
    }
  }

  /** The chunks of an article given as its cleaned paragraphs: the fold,
      then the trailing buffer if it is longer than `MinChunkSize`. */
  function ChunkParagraphs(paragraphs: seq<string>, articleId: string, articleTitle: string): (chunks: seq<TextChunk>)
    ensures Numbered(chunks, articleId, articleTitle)
    ensures Bounded(chunks, MaxChunkSize + |ParagraphBreak| + MaxChunkSize)
  {
    var st := Run(paragraphs, articleId, articleTitle);
    RunInvariant(paragraphs, articleId, articleTitle);
    if |st.buffer| > MinChunkSize then
      PushNumbered(st.chunks, st.buffer, articleId, articleTitle);
      PushBounded(st.chunks, st.buffer, articleId, articleTitle, MaxChunkSize + |ParagraphBreak| + MaxChunkSize);
      Push(st.chunks, st.buffer, articleId, articleTitle)
    else st.chunks
  }

  /** `chunkArticle(content, articleId, articleTitle)`, with the Markdown
      clean-up and paragraph split supplied as `paragraphsOf`. */
  function ChunkArticle(content: string, articleId: string, articleTitle: string,
                        paragraphsOf: string -> seq<string>): (chunks: seq<TextChunk>)
    ensures forall i :: 0 <= i < |chunks| ==> chunks[i].chunkIndex == i
    ensures forall i :: 0 <= i < |chunks| ==>
              chunks[i].articleId == articleId && chunks[i].articleTitle == articleTitle
    ensures Bounded(chunks, MaxChunkSize + |ParagraphBreak| + MaxChunkSize)
  {
    ChunkParagraphs(paragraphsOf(content), articleId, articleTitle)
  }

  /** The imperative form of `CutWindows`: the inner `while` loop with the
      running `chunkIndex` counter. It computes `CutWindows`. */
  method CutWindowsLoop(chunks: seq<TextChunk>, chunkIndex: nat, text: string, articleId: string, articleTitle: string)
    returns (chunks': seq<TextChunk>, chunkIndex': nat, remainingText: string)
    requires chunkIndex == |chunks|
    ensures State(chunks', remainingText) == CutWindows(chunks, text, articleId, articleTitle)
    ensures chunkIndex' == |chunks'|
  {
    chunks', chunkIndex', remainingText := chunks, chunkIndex, text;
    while |remainingText| > MaxChunkSize
      invariant CutWindows(chunks', remainingText, articleId, articleTitle)
                == CutWindows(chunks, text, articleId, articleTitle)
      invariant chunkIndex' == |chunks'|
      decreases |remainingText|
    {
      chunks' := chunks' + [TextChunk(Trim(remainingText[..MaxChunkSize]), articleId, articleTitle, chunkIndex')];
      chunkIndex' := chunkIndex' + 1;
      remainingText := remainingText[SplitPoint..];
    }
  }

  /** The imperative form of `Step`: the body of the outer `for` loop. It computes `Step`. */
  method AddParagraph(chunks: seq<TextChunk>, chunkIndex: nat, currentChunk: string, paragraph: string,
                      articleId: string, articleTitle: string)
    returns (chunks': seq<TextChunk>, chunkIndex': nat, currentChunk': string)
    requires chunkIndex == |chunks|
    ensures State(chunks', currentChunk') == Step(State(chunks, currentChunk), paragraph, articleId, articleTitle)
    ensures chunkIndex' == |chunks'|
  {
    var trimmedParagraph := Trim(paragraph);
    if |trimmedParagraph| > MaxChunkSize {
      chunks', chunkIndex', currentChunk' := AddLongParagraph(chunks, chunkIndex, currentChunk, trimmedParagraph, articleId, articleTitle);
    } else {
      chunks', chunkIndex', currentChunk' := AddShortParagraph(chunks, chunkIndex, currentChunk, trimmedParagraph, articleId, articleTitle);
    }
  }

  /** The branch for a trimmed paragraph longer than `MaxChunkSize`. */
  method AddLongParagraph(chunks: seq<TextChunk>, chunkIndex: nat, currentChunk: string, trimmedParagraph: string,
                          articleId: string, articleTitle: string)
    returns (chunks': seq<TextChunk>, chunkIndex': nat, currentChunk': string)
    requires chunkIndex == |chunks| && |trimmedParagraph| > MaxChunkSize
    ensures State(chunks', currentChunk') == LongStep(State(chunks, currentChunk), trimmedParagraph, articleId, articleTitle)
    ensures chunkIndex' == |chunks'|
  {
    chunks', chunkIndex' := chunks, chunkIndex;
    if |currentChunk| > MinChunkSize {
      chunks' := chunks' + [TextChunk(Trim(currentChunk), articleId, articleTitle, chunkIndex')];
      chunkIndex' := chunkIndex' + 1;
    }
    chunks', chunkIndex', currentChunk' := CutWindowsLoop(chunks', chunkIndex', trimmedParagraph, articleId, articleTitle);
  }

  /** The branch for a trimmed paragraph of at most `MaxChunkSize` characters. */
  method AddShortParagraph(chunks: seq<TextChunk>, chunkIndex: nat, currentChunk: string, trimmedParagraph: string,
                           articleId: string, articleTitle: string)
    returns (chunks': seq<TextChunk>, chunkIndex': nat, currentChunk': string)
    requires chunkIndex == |chunks| && |trimmedParagraph| <= MaxChunkSize
    ensures var buffer := currentChunk + (if |currentChunk| > 0 then ParagraphBreak else "") + trimmedParagraph;
            && (|buffer| > MaxChunkSize ==>
                  chunks' == Push(chunks, buffer, articleId, articleTitle) && currentChunk' == buffer[|buffer| - ChunkOverlap..])
            && (|buffer| <= MaxChunkSize ==> chunks' == chunks && currentChunk' == buffer)
    ensures State(chunks', currentChunk') == ShortStep(State(chunks, currentChunk), trimmedParagraph, articleId, articleTitle)
    ensures chunkIndex' == |chunks'|
  {
    chunks', chunkIndex' := chunks, chunkIndex;
    currentChunk' := currentChunk + (if |currentChunk| > 0 then ParagraphBreak else "") + trimmedParagraph;
    if |currentChunk'| > MaxChunkSize {
      chunks' := chunks' + [TextChunk(Trim(currentChunk'), articleId, articleTitle, chunkIndex')];
      chunkIndex' := chunkIndex' + 1;
      var overlapStart := if |currentChunk'| - ChunkOverlap > 0 then |currentChunk'| - ChunkOverlap else 0;
      currentChunk' := currentChunk'[overlapStart..];
    }
  }

  /** The imperative form of `Run` and `ChunkParagraphs`: a `for` loop over
      the paragraphs with a mutable buffer and counter, then the trailing buffer.
      It computes exactly `ChunkParagraphs`. */
  method ChunkParagraphsLoop(paragraphs: seq<string>, articleId: string, articleTitle: string)
    returns (chunks: seq<TextChunk>)
    ensures chunks == ChunkParagraphs(paragraphs, articleId, articleTitle)
    ensures forall i :: 0 <= i < |chunks| ==> chunks[i].chunkIndex == i
  {
    chunks := [];
    var currentChunk := "";
    var chunkIndex := 0;
    for n := 0 to |paragraphs|
      invariant State(chunks, currentChunk) == Run(paragraphs[..n], articleId, articleTitle)
      invariant chunkIndex == |chunks|
    {
      ghost var before := State(chunks, currentChunk);
      chunks, chunkIndex, currentChunk := AddParagraph(chunks, chunkIndex, currentChunk, paragraphs[n], articleId, articleTitle);
      RunSnoc(paragraphs, n, articleId, articleTitle);
    }
    assert paragraphs[..|paragraphs|] == paragraphs;
    ghost var st := State(chunks, currentChunk);
    if |currentChunk| > MinChunkSize {
      chunks := chunks + [TextChunk(Trim(currentChunk), articleId, articleTitle, chunkIndex)];
    }
    assert chunks == (if |st.buffer| > MinChunkSize then Push(st.chunks, st.buffer, articleId, articleTitle) else st.chunks);
  }

  /** Processing one more paragraph is one more `Step`. */
  lemma RunSnoc(paragraphs: seq<string>, n: nat, articleId: string, articleTitle: string)
    requires n < |paragraphs|
    ensures Run(paragraphs[..n + 1], articleId, articleTitle)
            == Step(Run(paragraphs[..n], articleId, articleTitle), paragraphs[n], articleId, articleTitle)
  {
    assert paragraphs[..n + 1][..n] == paragraphs[..n];
  }
}
