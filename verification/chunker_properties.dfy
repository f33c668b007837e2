/** Properties of the article chunker: when buffers are flushed, what is
    carried over, what is dropped, and how long a chunk can get. */
module ChunkerProperties {
  import opened Text
  import opened Chunker

  /** A paragraph of at most `MaxChunkSize` characters is appended to the
      buffer (after a paragraph break unless the buffer is empty). The result
      is flushed as one chunk exactly when it exceeds `MaxChunkSize`, and then
      the next buffer is its last `ChunkOverlap` characters. */
  lemma {:induction false} FlushRule(st: State, paragraph: string, articleId: string, articleTitle: string)
    requires |Trim(paragraph)| <= MaxChunkSize
    ensures var acc := st.buffer + (if st.buffer == [] then [] else ParagraphBreak) + Trim(paragraph);
            var r := Step(st, paragraph, articleId, articleTitle);
            && (|r.chunks| > |st.chunks| <==> |acc| > MaxChunkSize)
            && (|acc| > MaxChunkSize ==>
                  && r.chunks == st.chunks + [TextChunk(Trim(acc), articleId, articleTitle, |st.chunks|)]
                  && |r.buffer| == ChunkOverlap
                  && acc == acc[..|acc| - ChunkOverlap] + r.buffer)
            && (|acc| <= MaxChunkSize ==> r == State(st.chunks, acc))
  {
    var p := Trim(paragraph);
    assert Step(st, paragraph, articleId, articleTitle) == ShortStep(st, p, articleId, articleTitle);
    ShortStepRule(st, p, articleId, articleTitle);
  }

  lemma ShortStepRule(st: State, p: string, articleId: string, articleTitle: string)
    requires |p| <= MaxChunkSize
    ensures var acc := st.buffer + (if st.buffer == [] then [] else ParagraphBreak) + p;
            var r := ShortStep(st, p, articleId, articleTitle);
            && (|r.chunks| > |st.chunks| <==> |acc| > MaxChunkSize)
            && (|acc| > MaxChunkSize ==>
                  && r.chunks == st.chunks + [TextChunk(Trim(acc), articleId, articleTitle, |st.chunks|)]
                  && |r.buffer| == ChunkOverlap
                  && acc == acc[..|acc| - ChunkOverlap] + r.buffer)
            && (|acc| <= MaxChunkSize ==> r == State(st.chunks, acc))
  {
    var acc := st.buffer + (if st.buffer == [] then [] else ParagraphBreak) + p;
    assert acc == st.buffer + (if |st.buffer| > 0 then ParagraphBreak else "") + p;
    if |acc| > MaxChunkSize {
      var tail := acc[|acc| - ChunkOverlap..];
      assert ShortStep(st, p, articleId, articleTitle) == State(Push(st.chunks, acc, articleId, articleTitle), tail);
      assert acc == acc[..|acc| - ChunkOverlap] + tail;
    }
  }

  /** Before an over-long paragraph a pending buffer of at most `MinChunkSize`
      characters is dropped: the step behaves as if the buffer were empty. */
  lemma ShortPendingDiscarded(st: State, paragraph: string, articleId: string, articleTitle: string)
    requires |Trim(paragraph)| > MaxChunkSize
    requires |st.buffer| <= MinChunkSize
    ensures Step(st, paragraph, articleId, articleTitle)
            == Step(State(st.chunks, ""), paragraph, articleId, articleTitle)
  {}

  /** Before an over-long paragraph a pending buffer longer than `MinChunkSize`
      is emitted, trimmed, ahead of the paragraph's windows, and the
      paragraph's leftover replaces it. */
  lemma LongPendingFlushed(st: State, paragraph: string, articleId: string, articleTitle: string)
    requires |Trim(paragraph)| > MaxChunkSize
    requires |st.buffer| > MinChunkSize
    ensures var r := Step(st, paragraph, articleId, articleTitle);
            && |r.chunks| == |st.chunks| + 1 + WindowCount(|Trim(paragraph)|)
            && r.chunks[|st.chunks|] == TextChunk(Trim(st.buffer), articleId, articleTitle, |st.chunks|)
            && IsSuffixOf(r.buffer, Trim(paragraph))
  {
    var p := Trim(paragraph);
    var flushed := Push(st.chunks, st.buffer, articleId, articleTitle);
    var r := CutWindows(flushed, p, articleId, articleTitle);
    assert Step(st, paragraph, articleId, articleTitle) == r;
    assert r.chunks[|st.chunks|] == r.chunks[..|flushed|][|st.chunks|] == flushed[|st.chunks|];
    LeftoverIsSuffix(flushed, p, articleId, articleTitle);
  }

  /** What the inner loop leaves is a suffix of the paragraph. */
  lemma LeftoverIsSuffix(chunks: seq<TextChunk>, p: string, articleId: string, articleTitle: string)
    ensures IsSuffixOf(CutWindows(chunks, p, articleId, articleTitle).buffer, p)
  {
    CutWindowsBuffer(chunks, p, articleId, articleTitle);
  }

  predicate IsSuffixOf(t: string, s: string) {
    |t| <= |s| && s[|s| - |t|..] == t
  }

  /** After the last paragraph the buffer becomes a final chunk exactly when
      it is longer than `MinChunkSize`; otherwise it is dropped. */
  lemma TrailingBufferRule(paragraphs: seq<string>, articleId: string, articleTitle: string)
    ensures var st := Run(paragraphs, articleId, articleTitle);
            var chunks := ChunkParagraphs(paragraphs, articleId, articleTitle);
            && chunks[..|st.chunks|] == st.chunks
            && (|st.buffer| > MinChunkSize <==> |chunks| == |st.chunks| + 1)
            && (|st.buffer| > MinChunkSize ==>
                  chunks[|st.chunks|] == TextChunk(Trim(st.buffer), articleId, articleTitle, |st.chunks|))
  {}

  /** Flushing happens after the limit is crossed, so a chunk can be two full
      buffers and a paragraph break long: any paragraph of 500 characters
      that starts and ends with a non-space, given twice, yields a single
      chunk of 1002 characters. */
  lemma ChunkMayExceedMax(a: string, articleId: string, articleTitle: string)
    requires |a| == MaxChunkSize && !IsWhitespace(a[0]) && !IsWhitespace(a[|a| - 1])
    ensures ChunkParagraphs([a, a], articleId, articleTitle)
            == [TextChunk(a + ParagraphBreak + a, articleId, articleTitle, 0)]
    ensures |(a + ParagraphBreak + a)| == MaxChunkSize + |ParagraphBreak| + MaxChunkSize
  {
    TrimKeeps(a);
    var acc := a + ParagraphBreak + a;
    TrimKeeps(acc);
    FirstCopyBuffers(a, articleId, articleTitle);
    SecondCopyFlushes(a, acc, articleId, articleTitle);
    assert [a, a][..1] == [a];
  }

  /** The step of `ChunkMayExceedMax` that only fills the buffer. */
  lemma FirstCopyBuffers(a: string, articleId: string, articleTitle: string)
    requires |a| == MaxChunkSize && Trim(a) == a
    ensures Run([a], articleId, articleTitle) == State([], a)
  {
    assert [a][..0] == [];
    var s0 := State([], "");
    assert Run([a], articleId, articleTitle) == Step(s0, a, articleId, articleTitle);
    assert Step(s0, a, articleId, articleTitle) == ShortStep(s0, a, articleId, articleTitle);
    assert "" + "" + a == a;
  }

  /** The step of `ChunkMayExceedMax` that emits the joined buffer. */
  lemma SecondCopyFlushes(a: string, acc: string, articleId: string, articleTitle: string)
    requires |a| == MaxChunkSize && Trim(a) == a
    requires acc == a + ParagraphBreak + a && Trim(acc) == acc
    ensures Step(State([], a), a, articleId, articleTitle).chunks == [TextChunk(acc, articleId, articleTitle, 0)]
  {
    var s1 := State([], a);
    var s2 := Step(s1, a, articleId, articleTitle);
    assert s2 == ShortStep(s1, a, articleId, articleTitle);
    var none: seq<TextChunk> := [];
    assert s2.chunks == Push(none, acc, articleId, articleTitle);
  }

  /** A paragraph of 1002 characters: "a", 1000 spaces, "b". */
  predicate SpacedOut(p: string) {
    |p| == 1002 && p[0] == 'a' && p[1001] == 'b' && forall i :: 1 <= i < 1001 ==> p[i] == ' '
  }

  lemma SingleParagraph(p: string, articleId: string, articleTitle: string)
    ensures Run([p], articleId, articleTitle) == Step(State([], ""), p, articleId, articleTitle)
  {
    assert [p][..0] == [];
  }

  lemma MiddleWindowBlank(p: string)
    requires SpacedOut(p)
    ensures WindowCount(|p|) == 2 && Trim(Window(p, 1)) == ""
  {
    assert WindowCount(1002) == 2;
    assert WindowStart(1) == 450;
    var w := Window(p, 1);
    assert forall i :: 0 <= i < |w| ==> w[i] == p[450 + i];
    TrimAllWhitespace(w);
  }

  /** A first paragraph longer than `MaxChunkSize` is cut into windows at once. */
  lemma LongFirstParagraph(p: string, articleId: string, articleTitle: string)
    requires |Trim(p)| > MaxChunkSize
    ensures Run([p], articleId, articleTitle) == CutWindows([], Trim(p), articleId, articleTitle)
  {
    SingleParagraph(p, articleId, articleTitle);
  }

  lemma {:induction false} TwoWindows(p: string, articleId: string, articleTitle: string)
    requires WindowCount(|p|) == 2
    ensures var st := CutWindows([], p, articleId, articleTitle);
            && |st.chunks| == 2
            && st.chunks[1].text == Trim(Window(p, 1))
            && st.buffer == p[WindowStart(2)..]
  {
    var none: seq<TextChunk> := [];
    var st := CutWindows(none, p, articleId, articleTitle);
    assert |st.chunks| == 2;
    CutWindowsChunk(none, p, articleId, articleTitle, 1);
    var w := Window(p, 1);
    assert st.chunks[1] == TextChunk(Trim(w), articleId, articleTitle, 1);
    CutWindowsBuffer(none, p, articleId, articleTitle);
  }

  /** The spaced-out paragraph starts and ends with a letter, so trimming
      leaves it as it is. */
  lemma SpacedOutTrimmed(p: string)
    requires SpacedOut(p)
    ensures Trim(p) == p && |p| > MaxChunkSize
  {
    TrimKeeps(p);
  }

  /** A long paragraph with nothing to trim is cut into windows as it is. */
  lemma TrimmedLongParagraph(p: string, articleId: string, articleTitle: string)
    requires Trim(p) == p && |p| > MaxChunkSize
    ensures Run([p], articleId, articleTitle) == CutWindows([], p, articleId, articleTitle)
  {
    LongFirstParagraph(p, articleId, articleTitle);
  }

  lemma {:induction false} SpacedOutWindows(p: string, articleId: string, articleTitle: string)
    requires SpacedOut(p)
    ensures var st := CutWindows([], p, articleId, articleTitle);
            |st.chunks| == 2 && st.chunks[1].text == "" && |st.buffer| == 102
  {
    MiddleWindowBlank(p);
    TwoWindows(p, articleId, articleTitle);
    WindowStartIsMultiple(2);
  }

  /** A window is trimmed after it is cut, so a window that falls entirely in
      a run of spaces becomes an empty chunk: the paragraph "a", 1000 spaces,
      "b" yields three chunks, "a" (its first window trimmed), "" and "b"
      (the trimmed trailing buffer). */
  lemma SpacedOutChunks(p: string, articleId: string, articleTitle: string)
    requires SpacedOut(p)
    ensures var chunks := ChunkParagraphs([p], articleId, articleTitle);
            |chunks| == 3 && chunks[1].text == ""
  {
    SpacedOutRun(p, articleId, articleTitle);
    TrailingChunkAdded([p], articleId, articleTitle);
  }

  /** Before the final flush, the spaced-out paragraph has left two chunks,
      the second empty, and a 102-character leftover. */
  lemma SpacedOutRun(p: string, articleId: string, articleTitle: string)
    requires SpacedOut(p)
    ensures var st := Run([p], articleId, articleTitle);
            |st.chunks| == 2 && st.chunks[1].text == "" && |st.buffer| == 102
  {
    SpacedOutTrimmed(p);
    TrimmedLongParagraph(p, articleId, articleTitle);
    SpacedOutWindows(p, articleId, articleTitle);
  }

  /** Two chunks, the second empty, and a leftover over `MinChunkSize` give
      three chunks, the second still empty. */
  lemma TrailingChunkAdded(paragraphs: seq<string>, articleId: string, articleTitle: string)
    requires var st := Run(paragraphs, articleId, articleTitle);
             |st.chunks| == 2 && st.chunks[1].text == "" && |st.buffer| > MinChunkSize
    ensures var chunks := ChunkParagraphs(paragraphs, articleId, articleTitle);
            |chunks| == 3 && chunks[1].text == ""
  {
    TrailingBufferRule(paragraphs, articleId, articleTitle);
    var st := Run(paragraphs, articleId, articleTitle);
    var chunks := ChunkParagraphs(paragraphs, articleId, articleTitle);
    assert chunks[1] == chunks[..|st.chunks|][1] == st.chunks[1];
  }

  /** Some input yields an empty chunk. */
  lemma EmptyChunkPossible()
    ensures exists paragraphs: seq<string> ::
              var chunks := ChunkParagraphs(paragraphs, "a", "t");
              |chunks| == 3 && chunks[1].text == ""
  {
    var p: string := seq(1002, i => if i == 0 then 'a' else if i == 1001 then 'b' else ' ');
    SpacedOutChunks(p, "a", "t");
  }
}
