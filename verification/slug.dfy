/**
 * Slug derivation shared by the article routes: lower-case the title, turn
 * every run of characters other than `a`-`z`, `0`-`9` and the CJK unified
 * ideographs U+4E00..U+9FA5 into one hyphen, then strip the hyphens at
 * both ends.
 */
module Slug {
  import opened Text

  /** The characters a slug keeps. */
  predicate IsSlugChar(c: char) {
    ('a' <= c <= 'z') || ('0' <= c <= '9') || ('\U{4E00}' <= c <= '\U{9FA5}')
  }

  /** A slug character is never the hyphen the slug separates words with, nor
      white space, and lower-casing leaves it alone. */
  lemma SlugCharIsKept(c: char)
    ensures IsSlugChar(c) ==> c != '-' && !IsWhitespace(c) && LowerChar(c) == c
  {}

  /** The shape every derived slug has: slug characters separated by single
      hyphens, with no hyphen at either end. */
  predicate IsSlug(s: string) {
    && (forall i :: 0 <= i < |s| ==> IsSlugChar(s[i]) || s[i] == '-')
    && (forall i :: 0 <= i < |s| - 1 ==> !(s[i] == '-' && s[i + 1] == '-'))
    && (s == [] || (s[0] != '-' && s[|s| - 1] != '-'))
  }

  /** The slug characters of `s`, in order. */
  function SlugChars(s: string): string {
    if |s| == 0 then [] else (if IsSlugChar(s[0]) then [s[0]] else []) + SlugChars(s[1..])
  }

  lemma {:induction false} SlugCharsAppend(a: string, b: string)
    ensures SlugChars(a + b) == SlugChars(a) + SlugChars(b)
  {
    if |a| == 0 {
      assert a + b == b;
    } else {
      var head := if IsSlugChar(a[0]) then [a[0]] else [];
      assert (a + b)[0] == a[0] && (a + b)[1..] == a[1..] + b;
      SlugCharsAppend(a[1..], b);
      assert SlugChars(a + b) == head + (SlugChars(a[1..]) + SlugChars(b));
      assert SlugChars(a) == head + SlugChars(a[1..]);
    }
  }

  /** Drops the leading run of non-slug characters. */
  function SkipRun(s: string): (r: string)
    ensures |r| <= |s| && r == s[|s| - |r|..]
    ensures forall i :: 0 <= i < |s| - |r| ==> !IsSlugChar(s[i])
    ensures r == [] || IsSlugChar(r[0])
  {
    if |s| == 0 || IsSlugChar(s[0]) then s else SkipRun(s[1..])
  }

  lemma {:induction false} SkipRunSlugChars(s: string)
    ensures SlugChars(SkipRun(s)) == SlugChars(s)
  {
    if |s| > 0 && !IsSlugChar(s[0]) {
      SkipRunSlugChars(s[1..]);
    }
  }

  /** `replace(/[^a-z0-9一-龥]+/g, '-')`: every maximal run of
      non-slug characters becomes a single hyphen. */
  function Collapse(s: string): (r: string)
    ensures forall i :: 0 <= i < |r| ==> IsSlugChar(r[i]) || r[i] == '-'
    ensures forall i :: 0 <= i < |r| - 1 ==> !(r[i] == '-' && r[i + 1] == '-')
    ensures r == [] <==> s == []
    ensures |s| > 0 && IsSlugChar(s[0]) ==> r[0] == s[0]
    ensures |s| > 0 && !IsSlugChar(s[0]) ==> r[0] == '-'
    decreases |s|
  {
    if |s| == 0 then []
    else if IsSlugChar(s[0]) then [s[0]] + Collapse(s[1..])
    else "-" + Collapse(SkipRun(s[1..]))
  }

  /** Collapsing keeps exactly the slug characters, in order. */
  lemma {:induction false} CollapseSlugChars(s: string)
    ensures SlugChars(Collapse(s)) == SlugChars(s)
    decreases |s|
  {
    if |s| == 0 {
    } else if IsSlugChar(s[0]) {
      CollapseSlugChars(s[1..]);
      SlugCharsAppend([s[0]], Collapse(s[1..]));
    } else {
      var t := SkipRun(s[1..]);
      CollapseSlugChars(t);
      SlugCharsAppend("-", Collapse(t));
      SkipRunSlugChars(s[1..]);
    }
  }

  /** Slug characters and single hyphens only; ends unconstrained. */
  predicate Hyphenated(s: string) {
    && (forall i :: 0 <= i < |s| ==> IsSlugChar(s[i]) || s[i] == '-')
    && (forall i :: 0 <= i < |s| - 1 ==> !(s[i] == '-' && s[i + 1] == '-'))
  }

  lemma SliceHyphenated(s: string, lo: nat, hi: nat)
    requires Hyphenated(s) && lo <= hi <= |s|
    ensures Hyphenated(s[lo..hi])
  {
    var t := s[lo..hi];
    assert forall i :: 0 <= i < |t| ==> t[i] == s[lo + i];
  }

  /** Skipping from inside a word that ends in a slug character stops inside that word. */
  lemma {:induction false} SkipRunAppend(a: string, b: string)
    requires a != [] && IsSlugChar(a[|a| - 1])
    ensures SkipRun(a + b) == SkipRun(a) + b
  {
    if !IsSlugChar(a[0]) {
      assert (a + b)[1..] == a[1..] + b;
      SkipRunAppend(a[1..], b);
    }
  }

  /** Skipping a run of non-slug characters lands on what follows it. */
  lemma {:induction false} SkipRunOver(w: string, v: string)
    requires forall i :: 0 <= i < |w| ==> !IsSlugChar(w[i])
    requires v == [] || IsSlugChar(v[0])
    ensures SkipRun(w + v) == v
  {
    if |w| == 0 {
      assert w + v == v;
    } else {
      assert (w + v)[0] == w[0] && (w + v)[1..] == w[1..] + v;
      SkipRunOver(w[1..], v);
    }
  }

  /** Regrouping `a + (b + c)` as `a + b + c`, through named parts. */
  lemma Regroup(a: string, b: string, c: string, x: string, y: string)
    requires y == b + c && x == a + y
    ensures x == a + b + c
  {}

  /** Regrouping `(a + b) + c` as `a + (b + c)`, through named parts. */
  lemma RegroupRight(a: string, b: string, c: string, x: string, y: string)
    requires y == a + b && x == y + c
    ensures x == a + (b + c)
  {}

  lemma CollapseSlugHead(s: string)
    requires s != [] && IsSlugChar(s[0])
    ensures Collapse(s) == [s[0]] + Collapse(s[1..])
  {}

  lemma CollapseGapHead(s: string)
    requires s != [] && !IsSlugChar(s[0])
    ensures Collapse(s) == "-" + Collapse(SkipRun(s[1..]))
  {}

  /** A string ending in a slug character collapses independently of what follows. */
  lemma {:induction false} CollapseAppend(u: string, v: string)
    requires u == [] || IsSlugChar(u[|u| - 1])
    ensures Collapse(u + v) == Collapse(u) + Collapse(v)
    decreases |u|
  {
    var s := u + v;
    if |u| == 0 {
      assert s == v;
    } else {
      assert s[0] == u[0] && s[1..] == u[1..] + v;
      if IsSlugChar(u[0]) {
        CollapseSlugHead(s);
        CollapseSlugHead(u);
        CollapseAppend(u[1..], v);
        Regroup([u[0]], Collapse(u[1..]), Collapse(v), Collapse(s), Collapse(s[1..]));
      } else {
        var w := SkipRun(u[1..]);
        CollapseGapHead(s);
        CollapseGapHead(u);
        SkipRunAppend(u[1..], v);
        assert w == [] || w[|w| - 1] == u[|u| - 1];
        CollapseAppend(w, v);
        Regroup("-", Collapse(w), Collapse(v), Collapse(s), Collapse(w + v));
      }
    }
  }

  /** A leading run of non-slug characters becomes one hyphen. */
  lemma {:induction false} CollapseRunFront(w: string, v: string)
    requires w != [] && forall i :: 0 <= i < |w| ==> !IsSlugChar(w[i])
    requires v == [] || IsSlugChar(v[0])
    ensures Collapse(w + v) == "-" + Collapse(v)
  {
    assert (w + v)[0] == w[0] && (w + v)[1..] == w[1..] + v;
    SkipRunOver(w[1..], v);
  }

  /** A maximal run of non-slug characters between `u` and `v` becomes exactly
      one hyphen, and the two sides collapse on their own. */
  lemma {:induction false} CollapseRun(u: string, w: string, v: string)
    requires u == [] || IsSlugChar(u[|u| - 1])
    requires w != [] && forall i :: 0 <= i < |w| ==> !IsSlugChar(w[i])
    requires v == [] || IsSlugChar(v[0])
    ensures Collapse(u + w + v) == Collapse(u) + "-" + Collapse(v)
  {
    var rest := w + v;
    Regroup(u, w, v, u + rest, rest);
    CollapseAppend(u, rest);
    CollapseRunFront(w, v);
    Regroup(Collapse(u), "-", Collapse(v), Collapse(u + rest), Collapse(rest));
  }

  /** A word of slug characters collapses to itself. */
  lemma CollapseWord(s: string)
    requires forall i :: 0 <= i < |s| ==> IsSlugChar(s[i])
    ensures Collapse(s) == s
  {
    CollapseFixed(s);
  }

  /** A string already made of slug characters and single hyphens is left alone. */
  lemma {:induction false} CollapseFixed(s: string)
    requires Hyphenated(s)
    ensures Collapse(s) == s
    decreases |s|
  {
    if |s| > 0 {
      var rest := s[1..];
      SliceHyphenated(s, 1, |s|);
      assert s[1..|s|] == rest;
      CollapseFixed(rest);
      if !IsSlugChar(s[0]) {
        assert |s| == 1 || IsSlugChar(s[1]);
        assert SkipRun(rest) == rest;
      }
      assert s == [s[0]] + rest;
    }
  }

  function StripFront(s: string): (r: string)
    ensures |r| <= |s| && r == s[|s| - |r|..]
    ensures forall i :: 0 <= i < |s| - |r| ==> s[i] == '-'
    ensures r == [] || r[0] != '-'
  {
    if |s| > 0 && s[0] == '-' then StripFront(s[1..]) else s
  }

  function StripBack(s: string): (r: string)
    ensures |r| <= |s| && r == s[..|r|]
    ensures forall i :: |r| <= i < |s| ==> s[i] == '-'
    ensures r == [] || r[|r| - 1] != '-'
  {
    if |s| > 0 && s[|s| - 1] == '-' then StripBack(s[..|s| - 1]) else s
  }

  lemma {:induction false} StripFrontSlugChars(s: string)
    ensures SlugChars(StripFront(s)) == SlugChars(s)
  {
    if |s| > 0 && s[0] == '-' {
      StripFrontSlugChars(s[1..]);
    }
  }

  lemma {:induction false} StripBackSlugChars(s: string)
    ensures SlugChars(StripBack(s)) == SlugChars(s)
  {
    if |s| > 0 && s[|s| - 1] == '-' {
      var init := s[..|s| - 1];
      assert s == init + [s[|s| - 1]];
      SlugCharsAppend(init, [s[|s| - 1]]);
      StripBackSlugChars(init);
    }
  }

  predicate IsHyphen(c: char) {
    c == '-'
  }

  /** `replace(/^-+|-+$/g, '')`: removes the hyphens at both ends; the
      slug characters are kept. */
  function StripHyphens(s: string): (r: string)
    ensures exists k: nat :: Framed(s, r, k, IsHyphen)
    ensures r == [] || (r[0] != '-' && r[|r| - 1] != '-')
    ensures SlugChars(r) == SlugChars(s)
    ensures Hyphenated(s) ==> IsSlug(r)
    ensures IsSlug(s) ==> r == s
  {
    var front := StripFront(s);
    var r := StripBack(front);
    StripSlugChars(s, front, r);
    StripKeepsShape(s);
    FramedPieces(s, front, r, IsHyphen);
    StripFixed(s, front, r);
    r
  }

  lemma {:induction false} StripSlugChars(s: string, front: string, r: string)
    requires front == StripFront(s) && r == StripBack(front)
    ensures SlugChars(r) == SlugChars(s)
  {
    StripFrontSlugChars(s);
    StripBackSlugChars(front);
  }

  /** A string of slug shape has no hyphen to strip. */
  lemma StripFixed(s: string, front: string, r: string)
    requires front == StripFront(s) && r == StripBack(front)
    ensures IsSlug(s) ==> r == s
  {}

  /** Hyphens in front of a string that does not start with one are all stripped. */
  lemma {:induction false} StripFrontOf(h: string, t: string)
    requires forall i :: 0 <= i < |h| ==> h[i] == '-'
    requires t == [] || t[0] != '-'
    ensures StripFront(h + t) == t
  {
    if |h| == 0 {
      assert h + t == t;
    } else {
      assert (h + t)[0] == '-' && (h + t)[1..] == h[1..] + t;
      StripFrontOf(h[1..], t);
    }
  }

  /** Hyphens after a string that does not end with one are all stripped. */
  lemma {:induction false} StripBackOf(t: string, h: string)
    requires forall i :: 0 <= i < |h| ==> h[i] == '-'
    requires t == [] || t[|t| - 1] != '-'
    ensures StripBack(t + h) == t
    decreases |h|
  {
    if |h| == 0 {
      assert t + h == t;
    } else {
      var init := h[..|h| - 1];
      assert (t + h)[|t + h| - 1] == '-' && (t + h)[..|t + h| - 1] == t + init;
      StripBackOf(t, init);
    }
  }

  lemma StripKeepsShape(s: string)
    ensures Hyphenated(s) ==> IsSlug(StripBack(StripFront(s)))
  {
    if Hyphenated(s) {
      var front := StripFront(s);
      SliceHyphenated(s, |s| - |front|, |s|);
      SliceHyphenated(front, 0, |StripBack(front)|);
    }
  }

  /** The base slug derived from an article title. */
  function Slugify(title: string): (slug: string)
    ensures IsSlug(slug)
  {
    var collapsed := Collapse(LowerAscii(title));
    CollapseHyphenated(LowerAscii(title));
    StripHyphens(collapsed)
  }

  /** What `Collapse` produces has the slug shape apart from its ends. */
  lemma CollapseHyphenated(s: string)
    ensures Hyphenated(Collapse(s))
  {}

  /** The slug keeps every slug character of the lower-cased title, in order,
      and nothing else but hyphens. */
  lemma SlugifyKeepsSlugChars(title: string)
    ensures SlugChars(Slugify(title)) == SlugChars(LowerAscii(title))
  {
    CollapseSlugChars(LowerAscii(title));
  }

  lemma {:induction false} NoSlugChars(s: string)
    requires forall i :: 0 <= i < |s| ==> s[i] == '-'
    ensures SlugChars(s) == []
  {
    if |s| > 0 {
      NoSlugChars(s[1..]);
    }
  }

  /** Deriving the slug of a slug gives it back. */
  lemma SlugifyIdempotent(title: string)
    ensures Slugify(Slugify(title)) == Slugify(title)
  {
    SlugifyFixed(Slugify(title));
  }

  /** A string of slug shape is its own slug. */
  lemma SlugifyFixed(s: string)
    requires IsSlug(s)
    ensures Slugify(s) == s
  {
    assert LowerAscii(s) == s;
    CollapseFixed(s);
  }

  /** A title without any slug character has the empty slug. */
  lemma SlugOfSymbolsIsEmpty(title: string)
    requires forall i :: 0 <= i < |title| ==> !IsSlugChar(LowerChar(title[i]))
    ensures Slugify(title) == []
  {
    SlugifyKeepsSlugChars(title);
    var r := Slugify(title);
    NoSlugCharsInLower(title);
    if r != [] {
      SlugCharOfSlug(r);
    }
  }

  lemma {:induction false} NoSlugCharsInLower(title: string)
    requires forall i :: 0 <= i < |title| ==> !IsSlugChar(LowerChar(title[i]))
    ensures SlugChars(LowerAscii(title)) == []
  {
    if |title| > 0 {
      NoSlugCharsInLower(title[1..]);
    }
  }

  /** A non-empty slug holds a slug character (its first one). */
  lemma SlugCharOfSlug(s: string)
    requires IsSlug(s) && s != []
    ensures SlugChars(s) != []
  {
    assert SlugChars(s) == [s[0]] + SlugChars(s[1..]);
  }

  lemma LowerSlugChars(s: string)
    requires forall i :: 0 <= i < |s| ==> IsSlugChar(s[i])
    ensures LowerAscii(s) == s
  {}

  /** Two words of slug characters joined by any run of other characters
      give the two words joined by one hyphen. */
  lemma {:induction false} SlugifyJoinsWords(a: string, w: string, b: string)
    requires a != [] && forall i :: 0 <= i < |a| ==> IsSlugChar(a[i])
    requires w != [] && forall i :: 0 <= i < |w| ==> !IsSlugChar(LowerChar(w[i]))
    requires b != [] && forall i :: 0 <= i < |b| ==> IsSlugChar(b[i])
    ensures Slugify(a + w + b) == a + "-" + b
  {
    var lw := LowerAscii(w);
    LowerSlugChars(a);
    LowerSlugChars(b);
    LowerAsciiAppend(a, w);
    LowerAsciiAppend(a + w, b);
    CollapseRun(a, lw, b);
    CollapseWord(a);
    CollapseWord(b);
    var joined := a + "-" + b;
    assert forall i :: 0 <= i < |joined| ==> IsSlugChar(joined[i]) || joined[i] == '-';
    assert IsSlug(joined);
  }

  /** The hyphen a possibly empty run of non-slug characters collapses to. */
  function Gap(w: string): string {
    if w == [] then [] else "-"
  }

  lemma {:induction false} CollapseTail(a: string, l: string)
    requires a != [] && forall i :: 0 <= i < |a| ==> IsSlugChar(a[i])
    requires forall i :: 0 <= i < |l| ==> !IsSlugChar(l[i])
    ensures Collapse(a + l) == a + Gap(l)
  {
    CollapseAppend(a, l);
    CollapseWord(a);
    if l != [] {
      CollapseRunFront(l, []);
      assert l + [] == l;
    }
  }

  lemma {:induction false} CollapsePadded(l1: string, a: string, l2: string)
    requires forall i :: 0 <= i < |l1| ==> !IsSlugChar(l1[i])
    requires a != [] && forall i :: 0 <= i < |a| ==> IsSlugChar(a[i])
    requires forall i :: 0 <= i < |l2| ==> !IsSlugChar(l2[i])
    ensures Collapse(l1 + (a + l2)) == Gap(l1) + (a + Gap(l2))
  {
    CollapseTail(a, l2);
    if l1 != [] {
      CollapseRunFront(l1, a + l2);
    } else {
      assert l1 + (a + l2) == a + l2;
    }
  }

  lemma {:induction false} StripGaps(h1: string, a: string, h2: string)
    requires forall i :: 0 <= i < |h1| ==> h1[i] == '-'
    requires a != [] && a[0] != '-' && a[|a| - 1] != '-'
    requires forall i :: 0 <= i < |h2| ==> h2[i] == '-'
    ensures StripHyphens(h1 + (a + h2)) == a
  {
    StripFrontOf(h1, a + h2);
    StripBackOf(a, h2);
  }

  lemma {:induction false} LowerAround(w1: string, a: string, w2: string)
    requires forall i :: 0 <= i < |a| ==> IsSlugChar(a[i])
    ensures LowerAscii(w1 + a + w2) == LowerAscii(w1) + (a + LowerAscii(w2))
  {
    LowerSlugChars(a);
    LowerAsciiAppend(w1, a);
    LowerAsciiAppend(w1 + a, w2);
    RegroupRight(LowerAscii(w1), a, LowerAscii(w2), LowerAscii(w1 + a + w2), LowerAscii(w1 + a));
  }

  /** Runs of non-slug characters around a word are dropped entirely. */
  lemma {:induction false} SlugifyTrimsEnds(w1: string, a: string, w2: string)
    requires forall i :: 0 <= i < |w1| ==> !IsSlugChar(LowerChar(w1[i]))
    requires a != [] && forall i :: 0 <= i < |a| ==> IsSlugChar(a[i])
    requires forall i :: 0 <= i < |w2| ==> !IsSlugChar(LowerChar(w2[i]))
    ensures Slugify(w1 + a + w2) == a
  {
    var l1, l2 := LowerAscii(w1), LowerAscii(w2);
    LowerAround(w1, a, w2);
    CollapsePadded(l1, a, l2);
    StripGaps(Gap(l1), a, Gap(l2));
  }
}
