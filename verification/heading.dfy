/**
 * The Markdown title search of the upload route: the first match of the
 * regular expression `^#\s+(.+)$` in multi-line mode. `^` matches at the
 * start of the text or after a line terminator, `\s` is JavaScript white
 * space (line terminators included), `.` is any character but a line
 * terminator, and `$` matches before a line terminator or at the end.
 */
module Heading {
  import opened Wrappers
  import opened Text

  predicate LineStart(s: string, p: nat) {
    p <= |s| && (p == 0 || IsLineTerminator(s[p - 1]))
  }

  /** One way the pattern matches: `#` at `p`, white space on `p+1 .. q`,
      and the captured group on `q .. e`. */
  predicate MatchesAt(s: string, p: nat, q: nat, e: nat) {
    && p + 2 <= q < e <= |s|
    && LineStart(s, p)
    && s[p] == '#'
    && (forall i :: p + 1 <= i < q ==> IsWhitespace(s[i]))
    && (forall i :: q <= i < e ==> !IsLineTerminator(s[i]))
    && (e == |s| || IsLineTerminator(s[e]))
  }

  /** A match: where it starts and the bounds of its group. */
  datatype Match = Match(start: nat, groupStart: nat, groupEnd: nat)

  /** `m` is the match a backtracking matcher reports: the leftmost start,
      and there the longest white-space run `\s+` can keep. */
  ghost predicate Preferred(s: string, m: Match) {
    && MatchesAt(s, m.start, m.groupStart, m.groupEnd)
    && forall p: nat, q: nat, e: nat :: MatchesAt(s, p, q, e) ==>
         m.start < p || (m.start == p && (q < m.groupStart || (q == m.groupStart && e == m.groupEnd)))
  }

  function WhitespaceEnd(s: string, i: nat): (j: nat)
    requires i <= |s|
    ensures i <= j <= |s|
    ensures forall k :: i <= k < j ==> IsWhitespace(s[k])
    ensures j == |s| || !IsWhitespace(s[j])
    decreases |s| - i
  {
    if i == |s| || !IsWhitespace(s[i]) then i else WhitespaceEnd(s, i + 1)
  }

  function LineEnd(s: string, i: nat): (j: nat)
    requires i <= |s|
    ensures i <= j <= |s|
    ensures forall k :: i <= k < j ==> !IsLineTerminator(s[k])
    ensures j == |s| || IsLineTerminator(s[j])
    decreases |s| - i
  {
    if i == |s| || IsLineTerminator(s[i]) then i else LineEnd(s, i + 1)
  }

  /** A run of non-terminators ending at a line end ends at `LineEnd`. */
  lemma LineEndUnique(s: string, q: nat, e: nat)
    requires q <= e <= |s|
    requires forall i :: q <= i < e ==> !IsLineTerminator(s[i])
    requires e == |s| || IsLineTerminator(s[e])
    ensures e == LineEnd(s, q)
  {}

  /** The largest index in `lo .. hi` holding no line terminator. */
  function LastNonTerminator(s: string, lo: nat, hi: nat): (r: Option<nat>)
    requires lo <= hi <= |s|
    ensures r.None? <==> forall i :: lo <= i < hi ==> IsLineTerminator(s[i])
    ensures r.Some? ==> lo <= r.value < hi && !IsLineTerminator(s[r.value])
                        && forall i :: r.value < i < hi ==> IsLineTerminator(s[i])
    decreases hi - lo
  {
    if lo == hi then None
    else if !IsLineTerminator(s[hi - 1]) then Some(hi - 1)
    else LastNonTerminator(s, lo, hi - 1)
  }

  /** The group captured by a match starting at `p`: `\s+` first takes the
      whole white-space run; when that run reaches the end of the text it
      gives characters back until `.+` can take one. */
  function GroupAt(s: string, p: nat): (r: Option<(nat, nat)>)
    requires p < |s| && LineStart(s, p)
    ensures r.Some? ==> MatchesAt(s, p, r.value.0, r.value.1)
    ensures r.Some? ==> forall q: nat, e: nat :: MatchesAt(s, p, q, e) ==>
                          q < r.value.0 || (q == r.value.0 && e == r.value.1)
    ensures r.None? ==> forall q: nat, e: nat :: !MatchesAt(s, p, q, e)
  {
    if s[p] != '#' || p + 1 == |s| then None
    else
      var w := WhitespaceEnd(s, p + 1);
      if w == p + 1 then None
      else if w < |s| then
        LineTerminatorIsWhitespace(s[w]);
        GroupAtRun(s, p, w);
        Some((w, LineEnd(s, w)))
      else
        match LastNonTerminator(s, p + 2, |s|)
        case None =>
          NoBacktrackedGroup(s, p);
          None
        case Some(q) =>
          GroupAtBacktracked(s, p, q);
          Some((q, LineEnd(s, q)))
  }

  lemma GroupAtRun(s: string, p: nat, w: nat)
    requires p < |s| && LineStart(s, p) && s[p] == '#' && p + 1 < |s|
    requires w == WhitespaceEnd(s, p + 1) && p + 1 < w < |s|
    ensures MatchesAt(s, p, w, LineEnd(s, w))
    ensures forall q: nat, e: nat :: MatchesAt(s, p, q, e) ==> q < w || (q == w && e == LineEnd(s, w))
  {
    LineTerminatorIsWhitespace(s[w]);
    forall q: nat, e: nat | MatchesAt(s, p, q, e)
      ensures q < w || (q == w && e == LineEnd(s, w))
    {
      if q == w {
        LineEndUnique(s, q, e);
      }
    }
  }

  lemma GroupAtBacktracked(s: string, p: nat, q: nat)
    requires p < |s| && LineStart(s, p) && s[p] == '#' && p + 1 < |s|
    requires WhitespaceEnd(s, p + 1) == |s|
    requires LastNonTerminator(s, p + 2, |s|) == Some(q)
    ensures MatchesAt(s, p, q, LineEnd(s, q))
    ensures forall q': nat, e: nat :: MatchesAt(s, p, q', e) ==> q' < q || (q' == q && e == LineEnd(s, q))
  {
    forall q': nat, e: nat | MatchesAt(s, p, q', e)
      ensures q' < q || (q' == q && e == LineEnd(s, q))
    {
      assert !IsLineTerminator(s[q']);
      if q' == q {
        LineEndUnique(s, q', e);
      }
    }
  }

  lemma NoBacktrackedGroup(s: string, p: nat)
    requires p + 2 <= |s|
    requires LastNonTerminator(s, p + 2, |s|).None?
    ensures forall q: nat, e: nat :: !MatchesAt(s, p, q, e)
  {
    forall q: nat, e: nat
      ensures !MatchesAt(s, p, q, e)
    {
      if p + 2 <= q < |s| {
        assert IsLineTerminator(s[q]);
      }
    }
  }

  /** The first match at or after `from`. */
  function FirstMatchFrom(s: string, from: nat): (r: Option<Match>)
    requires from <= |s|
    ensures r.None? <==> forall p: nat, q: nat, e: nat :: from <= p ==> !MatchesAt(s, p, q, e)
    ensures r.Some? ==> from <= r.value.start && MatchesAt(s, r.value.start, r.value.groupStart, r.value.groupEnd)
    ensures r.Some? ==> forall p: nat, q: nat, e: nat :: from <= p && MatchesAt(s, p, q, e) ==>
              r.value.start < p || (r.value.start == p && (q < r.value.groupStart || (q == r.value.groupStart && e == r.value.groupEnd)))
    decreases |s| - from
  {
    if from == |s| then None
    else if LineStart(s, from) && GroupAt(s, from).Some? then
      var g := GroupAt(s, from).value;
      Some(Match(from, g.0, g.1))
    else FirstMatchFrom(s, from + 1)
  }

  /** `content.match(/^#\s+(.+)$/m)`: the reported match, if any. */
  function FirstMatch(s: string): (r: Option<Match>)
    ensures r.None? <==> forall p: nat, q: nat, e: nat :: !MatchesAt(s, p, q, e)
    ensures r.Some? ==> Preferred(s, r.value)
  {
    FirstMatchFrom(s, 0)
  }

  /** The captured group, `titleMatch[1]`, before trimming. */
  function HeadingText(s: string): (r: Option<string>)
    ensures r.None? <==> forall p: nat, q: nat, e: nat :: !MatchesAt(s, p, q, e)
    ensures r.Some? ==> exists m :: Preferred(s, m) && r.value == s[m.groupStart..m.groupEnd]
  {
    match FirstMatch(s)
    case None => None
    case Some(m) => Some(s[m.groupStart..m.groupEnd])
  }

  /** A heading line `#`, white space, then a title whose first character is
      not white space: the title is captured, even when the white space
      spans line breaks. */
  lemma HeadingCaptured(ws: string, title: string, rest: string)
    requires |ws| > 0 && forall i :: 0 <= i < |ws| ==> IsWhitespace(ws[i])
    requires |title| > 0 && !IsWhitespace(title[0])
    requires forall i :: 0 <= i < |title| ==> !IsLineTerminator(title[i])
    requires rest == [] || IsLineTerminator(rest[0])
    ensures HeadingText("#" + ws + title + rest) == Some(title)
  {
    var s := "#" + ws + title + rest;
    var q := 1 + |ws|;
    var e := q + |title|;
    assert s[q..e] == title;
    assert MatchesAt(s, 0, q, e);
    var m := FirstMatch(s).value;
    assert m.start == 0;
  }

  /** A heading marker followed only by white space up to the end of the
      text still matches, capturing the last white-space character. */
  lemma BlankHeadingAtEnd()
    ensures HeadingText("#  ") == Some(" ")
  {
    var s := "#  ";
    assert MatchesAt(s, 0, 2, 3);
    var m := FirstMatch(s).value;
    assert m.start == 0 && m.groupStart == 2 && m.groupEnd == 3;
    assert s[2..3] == " ";
  }

  /** Without a `#` there is no heading. */
  lemma NoHashNoHeading(s: string)
    requires forall i :: 0 <= i < |s| ==> s[i] != '#'
    ensures HeadingText(s).None?
  {}
}
