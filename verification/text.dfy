/**
 * String helpers shared by the model: JavaScript's `trim`, ASCII lower-casing,
 * decimal rendering of naturals, `Array.prototype.join` and substring search.
 * Strings are sequences of characters.
 */
module Text {
  import opened Wrappers

  /** The characters JavaScript's `\s` and `String.prototype.trim` treat as
      white space: the WhiteSpace and LineTerminator code points. */
  predicate IsWhitespace(c: char) {
    || c == ' ' || c == '\t' || c == '\n' || c == '\r' || c == '\U{000B}' || c == '\U{000C}'
    || c == '\U{00A0}' || c == '\U{1680}' || ('\U{2000}' <= c <= '\U{200A}')
    || c == '\U{2028}' || c == '\U{2029}' || c == '\U{202F}' || c == '\U{205F}'
    || c == '\U{3000}' || c == '\U{FEFF}'
  }

  /** The characters that end a line for `^`, `$` and `.` in a JavaScript regular expression. */
  predicate IsLineTerminator(c: char) {
    c == '\n' || c == '\r' || c == '\U{2028}' || c == '\U{2029}'
  }

  /** `s` with its leading white space removed. */
  function TrimStart(s: string): (r: string)
    ensures |r| <= |s| && r == s[|s| - |r|..]
    ensures forall i :: 0 <= i < |s| - |r| ==> IsWhitespace(s[i])
    ensures r == [] || !IsWhitespace(r[0])
  {
    if |s| > 0 && IsWhitespace(s[0]) then TrimStart(s[1..]) else s
  }

  /** `s` with its trailing white space removed. */
  function TrimEnd(s: string): (r: string)
    ensures |r| <= |s| && r == s[..|r|]
    ensures forall i :: |r| <= i < |s| ==> IsWhitespace(s[i])
    ensures r == [] || !IsWhitespace(r[|r| - 1])
  {
    if |s| > 0 && IsWhitespace(s[|s| - 1]) then TrimEnd(s[..|s| - 1]) else s
  }

  /** JavaScript's `s.trim()`: the longest infix of `s` that neither starts
      nor ends with white space, all of whose surroundings are white space. */
  function Trim(s: string): (r: string)
    ensures |r| <= |s|
    ensures r == [] || (!IsWhitespace(r[0]) && !IsWhitespace(r[|r| - 1]))
    ensures exists k: nat :: Framed(s, r, k, IsWhitespace)
  {
    var t := TrimStart(s);
    var r := TrimEnd(t);
    FramedPieces(s, t, r, IsWhitespace);
    r
  }

  /** `r` is the piece of `s` starting at `k`, and every character of `s`
      around it satisfies `pad`. */
  predicate Framed(s: string, r: string, k: nat, pad: char -> bool) {
    && k + |r| <= |s|
    && r == s[k..k + |r|]
    && (forall i :: 0 <= i < k ==> pad(s[i]))
    && (forall i :: k + |r| <= i < |s| ==> pad(s[i]))
  }

  /** Cutting a padded head and then a padded tail leaves a framed piece. */
  lemma FramedPieces(s: string, t: string, r: string, pad: char -> bool)
    requires |t| <= |s| && t == s[|s| - |t|..]
    requires |r| <= |t| && r == t[..|r|]
    requires forall i :: 0 <= i < |s| - |t| ==> pad(s[i])
    requires forall i :: |r| <= i < |t| ==> pad(t[i])
    ensures Framed(s, r, |s| - |t|, pad)
  {
    var k := |s| - |t|;
    forall i | k + |r| <= i < |s|
      ensures pad(s[i])
    {
      assert s[i] == t[i - k];
    }
  }

  /** The trimmed string is a piece of the original. */
  lemma TrimIsInfix(s: string)
    ensures IsInfix(Trim(s), s)
  {
    var t := TrimStart(s);
    var r := TrimEnd(t);
    assert r == s[|s| - |t|..][..|r|];
    assert IsPrefix(r, s[|s| - |t|..]);
  }

  /** A string that already starts and ends with a non-white-space character is its own trim. */
  lemma TrimKeeps(s: string)
    requires s == [] || (!IsWhitespace(s[0]) && !IsWhitespace(s[|s| - 1]))
    ensures Trim(s) == s
  {}

  /** Every line terminator is also white space. */
  lemma LineTerminatorIsWhitespace(c: char)
    ensures IsLineTerminator(c) ==> IsWhitespace(c)
  {}

  /** Among ASCII characters, white space is exactly space, tab, line feed,
      carriage return, vertical tab and form feed. */
  lemma AsciiWhitespace(c: char)
    requires c < '\U{0080}'
    ensures IsWhitespace(c) <==> c in " \t\n\r\U{000B}\U{000C}"
  {}

  /** A string trims to empty exactly when it is all white space. */
  lemma TrimBlank(s: string)
    ensures Trim(s) == [] <==> forall i :: 0 <= i < |s| ==> IsWhitespace(s[i])
  {
    if Trim(s) == [] {
      var k: nat :| Framed(s, Trim(s), k, IsWhitespace);
      assert forall i :: 0 <= i < |s| ==> IsWhitespace(s[i]) by {
        forall i | 0 <= i < |s| ensures IsWhitespace(s[i]) {
          if i < k { assert IsWhitespace(s[i]); } else { assert k + |Trim(s)| <= i; }
        }
      }
    }
  }

  /** A string made only of white space trims to the empty string. */
  lemma TrimAllWhitespace(s: string)
    requires forall i :: 0 <= i < |s| ==> IsWhitespace(s[i])
    ensures Trim(s) == []
  {}

  /** Trimming twice is trimming once. */
  lemma TrimIdempotent(s: string)
    ensures Trim(Trim(s)) == Trim(s)
  {
    TrimKeeps(Trim(s));
  }

  /** `t` is a prefix of `s`. */
  predicate IsPrefix(t: string, s: string) {
    |t| <= |s| && s[..|t|] == t
  }

  /** `t` occurs somewhere inside `s`. */
  predicate IsInfix(t: string, s: string) {
    exists k :: 0 <= k <= |s| && IsPrefix(t, s[k..])
  }

  /** An occurrence inside an occurrence is an occurrence. */
  lemma InfixTransitive(a: string, b: string, c: string)
    requires IsInfix(a, b) && IsInfix(b, c)
    ensures IsInfix(a, c)
  {
    var i :| 0 <= i <= |b| && IsPrefix(a, b[i..]);
    var j :| 0 <= j <= |c| && IsPrefix(b, c[j..]);
    var found := c[j + i..][..|a|];
    forall k | 0 <= k < |a|
      ensures found[k] == a[k]
    {
      assert c[j..][..|b|][i + k] == b[i + k];
      assert b[i..][..|a|][k] == a[k];
    }
    assert IsPrefix(a, c[j + i..]);
  }

  /** Each part of a concatenation of three is an infix of it. */
  lemma InfixOfConcat(a: string, b: string, c: string)
    ensures IsInfix(b, a + b + c)
    ensures IsInfix(a, a + b + c)
    ensures IsInfix(c, a + b + c)
  {
    var s := a + b + c;
    assert s[|a|..][..|b|] == b;
    assert IsPrefix(b, s[|a|..]);
    assert s[0..][..|a|] == a;
    assert IsPrefix(a, s[0..]);
    assert s[|a| + |b|..][..|c|] == c;
    assert IsPrefix(c, s[|a| + |b|..]);
  }

  /** ASCII-only `toLowerCase`: 'A'..'Z' become 'a'..'z', every other character is kept. */
  function LowerAscii(s: string): (r: string)
    ensures |r| == |s|
    ensures forall i :: 0 <= i < |s| ==> r[i] == LowerChar(s[i])
  {
    if |s| == 0 then [] else [LowerChar(s[0])] + LowerAscii(s[1..])
  }

  /** Lower-casing works character by character, so it distributes over concatenation. */
  lemma LowerAsciiAppend(a: string, b: string)
    ensures LowerAscii(a + b) == LowerAscii(a) + LowerAscii(b)
  {
    var l, r := LowerAscii(a + b), LowerAscii(a) + LowerAscii(b);
    forall i | 0 <= i < |l|
      ensures l[i] == r[i]
    {
      assert (a + b)[i] == if i < |a| then a[i] else b[i - |a|];
    }
  }

  function LowerChar(c: char): char {
    if 'A' <= c <= 'Z' then (c as int - 'A' as int + 'a' as int) as char else c
  }

  predicate IsDigit(c: char) {
    '0' <= c <= '9'
  }

  function DigitChar(d: nat): (c: char)
    requires d < 10
    ensures IsDigit(c)
  {
    ('0' as int + d) as char
  }

  function DigitValue(c: char): nat
    requires IsDigit(c)
  {
    c as int - '0' as int
  }

  /** `String(n)` for a natural number: its decimal digits, most significant first. */
  function NatToString(n: nat): (r: string)
    ensures 0 < |r|
    ensures forall i :: 0 <= i < |r| ==> IsDigit(r[i])
    ensures n < 10 <==> |r| == 1
  {
    if n < 10 then [DigitChar(n)] else NatToString(n / 10) + [DigitChar(n % 10)]
  }

  /** The value of a string of decimal digits. */
  function ParseNat(s: string): nat
    requires forall i :: 0 <= i < |s| ==> IsDigit(s[i])
  {
    if |s| == 0 then 0 else ParseNat(s[..|s| - 1]) * 10 + DigitValue(s[|s| - 1])
  }

  /** Reading back the rendered digits gives the number. */
  lemma {:induction false} ParseNatToString(n: nat)
    ensures ParseNat(NatToString(n)) == n
  {
    var s := NatToString(n);
    if n < 10 {
      assert s[..0] == [];
    } else {
      assert s[..|s| - 1] == NatToString(n / 10);
      ParseNatToString(n / 10);
    }
  }

  /** Distinct numbers render to distinct strings. */
  lemma NatToStringInjective(a: nat, b: nat)
    requires NatToString(a) == NatToString(b)
    ensures a == b
  {
    ParseNatToString(a);
    ParseNatToString(b);
  }

  /** A slice of a suffix is a slice of the whole. */
  lemma SliceOfSuffix<T>(s: seq<T>, d: nat, lo: nat, hi: nat)
    requires d + hi <= |s| && lo <= hi
    ensures s[d..][lo..hi] == s[d + lo..d + hi]
  {}

  /** The first part of a concatenation is a prefix of it. */
  lemma PrefixOfConcat<T>(a: seq<T>, b: seq<T>, c: seq<T>)
    ensures |a| <= |a + b + c| && (a + b + c)[..|a|] == a
  {
    var s := a + b + c;
    forall k | 0 <= k < |a|
      ensures s[..|a|][k] == a[k]
    {}
  }

  /** A slice inside the middle part of a concatenation is a slice of that part. */
  lemma MiddleSlice<T>(a: seq<T>, b: seq<T>, c: seq<T>, j: nat, len: nat)
    requires j + len <= |b|
    ensures |a| + j + len <= |a + b + c|
    ensures (a + b + c)[|a| + j..][..len] == b[j..][..len]
  {
    forall k | 0 <= k < len
      ensures (a + b + c)[|a| + j..][..len][k] == b[j..][..len][k]
    {}
  }

  /** `b` is the suffix of `a + b` of its own length. */
  lemma EndsWith<T>(a: seq<T>, b: seq<T>)
    ensures |b| <= |a + b| && (a + b)[|a + b| - |b|..] == b
  {
    assert (a + b)[|a|..] == b;
  }

  /** The last `n` elements of `a + b` are the last `n` of `b`. */
  lemma SuffixOfAppend<T>(a: seq<T>, b: seq<T>, n: nat)
    requires n <= |b|
    ensures (a + b)[|a + b| - n..] == b[|b| - n..]
  {
    var left, right := (a + b)[|a + b| - n..], b[|b| - n..];
    forall k | 0 <= k < n
      ensures left[k] == right[k]
    {}
  }

  /** A suffix of a suffix is a suffix. */
  lemma SuffixOfSuffix<T>(s: seq<T>, d: nat, k: nat)
    requires d + k <= |s|
    ensures s[d..][k..] == s[d + k..]
  {}

  /** A prefix of a prefix is a prefix. */
  lemma PrefixTransitive<T>(s: seq<T>, t: seq<T>, u: seq<T>)
    requires |u| <= |t| <= |s| && s[..|t|] == t && t[..|u|] == u
    ensures s[..|u|] == u
  {
    assert s[..|u|] == s[..|t|][..|u|];
  }

  /** `parts.join(sep)`. */
  function Join(parts: seq<string>, sep: string): (r: string)
    ensures |parts| == 0 ==> r == ""
    ensures |parts| > 0 ==> IsPrefix(parts[0], r)
    ensures |parts| > 0 ==> |parts[|parts| - 1]| <= |r| && r[|r| - |parts[|parts| - 1]|..] == parts[|parts| - 1]
  {
    if |parts| == 0 then ""
    else if |parts| == 1 then parts[0]
    else Join(parts[..|parts| - 1], sep) + sep + parts[|parts| - 1]
  }

  /** Where `parts[k]` starts inside `Join(parts, sep)`: every earlier part
      followed by one separator. */
  function JoinOffset(parts: seq<string>, sep: string, k: nat): nat
    requires k <= |parts|
  {
    if k == 0 then 0 else JoinOffset(parts, sep, k - 1) + |parts[k - 1]| + |sep|
  }

  /** Joining a prefix of the parts gives a prefix of the joined string. */
  lemma {:induction false} JoinPrefix(parts: seq<string>, sep: string, k: nat)
    requires 1 <= k <= |parts|
    ensures IsPrefix(Join(parts[..k], sep), Join(parts, sep))
    decreases |parts| - k
  {
    if k < |parts| {
      JoinPrefix(parts, sep, k + 1);
      var shorter := Join(parts[..k], sep);
      var longer := Join(parts[..k + 1], sep);
      assert parts[..k + 1][..k] == parts[..k];
      assert longer == shorter + sep + parts[k];
      assert longer[..|shorter|] == shorter;
      var whole := Join(parts, sep);
      assert whole[..|shorter|] == whole[..|longer|][..|shorter|];
    } else {
      assert parts[..k] == parts;
    }
  }

  /** Every part sits in the joined string at its offset, parts in order and
      separated by `sep`. */
  lemma PartAt(parts: seq<string>, sep: string, k: nat)
    requires k < |parts|
    ensures JoinOffset(parts, sep, k) + |parts[k]| <= |Join(parts, sep)|
    ensures Join(parts, sep)[JoinOffset(parts, sep, k)..][..|parts[k]|] == parts[k]
    ensures k + 1 < |parts| ==>
              JoinOffset(parts, sep, k + 1) == JoinOffset(parts, sep, k) + |parts[k]| + |sep|
  {
    PartEnd(parts, sep, k);
    JoinPrefix(parts, sep, k + 1);
    var whole := Join(parts, sep);
    var upto := Join(parts[..k + 1], sep);
    var off := JoinOffset(parts, sep, k);
    assert parts[..k + 1][k] == parts[k];
    assert upto[off..] == parts[k];
    assert whole[off..][..|parts[k]|] == whole[..|upto|][off..];
  }

  /** Part `k` ends where the join of the first `k + 1` parts ends. */
  lemma {:induction false} PartEnd(parts: seq<string>, sep: string, k: nat)
    requires k < |parts|
    ensures JoinOffset(parts, sep, k) + |parts[k]| == |Join(parts[..k + 1], sep)|
  {
    if k > 0 {
      PartEnd(parts, sep, k - 1);
      JoinSnoc(parts, sep, k + 1);
      assert parts[..k + 1][k] == parts[k];
      assert parts[..k + 1][..k] == parts[..k];
    } else {
      assert parts[..1] == [parts[0]];
    }
  }

  /** In `parts.join(sep)`, every part but the last is followed by `sep`. */
  lemma SepAfterPart(parts: seq<string>, sep: string, k: nat)
    requires k + 1 < |parts|
    ensures OccursAt(Join(parts, sep), sep, JoinOffset(parts, sep, k) + |parts[k]|)
  {
    PartEnd(parts, sep, k);
    var upto := Join(parts[..k + 1], sep);
    var next := Join(parts[..k + 2], sep);
    JoinSnoc(parts, sep, k + 2);
    SepInSnoc(upto, sep, parts[k + 1], next);
    JoinPrefix(parts, sep, k + 2);
    OccursInPrefix(Join(parts, sep), next, sep, |upto|);
  }

  /** Joining one more part appends the separator and that part. */
  lemma JoinSnoc(parts: seq<string>, sep: string, n: nat)
    requires 2 <= n <= |parts|
    ensures Join(parts[..n], sep) == Join(parts[..n - 1], sep) + sep + parts[n - 1]
  {
    assert parts[..n][..n - 1] == parts[..n - 1];
  }

  /** In `u + sep + p`, the separator occurs right after `u`. */
  lemma SepInSnoc(u: string, sep: string, p: string, s: string)
    requires s == u + sep + p
    ensures OccursAt(s, sep, |u|)
  {
    assert s[|u|..|u| + |sep|] == sep;
  }

  /** An occurrence inside a prefix of `s` is an occurrence inside `s`. */
  lemma OccursInPrefix(s: string, t: string, pat: string, i: nat)
    requires IsPrefix(t, s) && OccursAt(t, pat, i)
    ensures OccursAt(s, pat, i)
  {
    assert s[i..i + |pat|] == s[..|t|][i..i + |pat|];
  }

  /** A one-character occurrence is that character at that index. */
  lemma OccursAtChar(s: string, t: string, i: nat)
    requires |t| == 1 && OccursAt(s, t, i)
    ensures i < |s| && s[i] == t[0]
  {
    assert s[i..i + 1][0] == s[i];
  }

  /** What follows `a + w` in `a + w + c` is `c`. */
  lemma TailAfter(a: string, w: string, c: string)
    ensures (a + w + c)[|a| + |w|..] == c
  {}

  /** An occurrence inside `w` is an occurrence inside `a + w + c`, shifted by `|a|`. */
  lemma OccursAtShift(a: string, w: string, c: string, t: string, i: nat)
    requires OccursAt(w, t, i)
    ensures OccursAt(a + w + c, t, |a| + i)
  {
    assert (a + w + c)[|a| + i..|a| + i + |t|] == w[i..i + |t|];
  }

  /** The last part ends the joined string. */
  lemma LastPartEnds(parts: seq<string>, sep: string)
    requires |parts| > 0
    ensures JoinOffset(parts, sep, |parts| - 1) + |parts[|parts| - 1]| == |Join(parts, sep)|
  {
    PartEnd(parts, sep, |parts| - 1);
    assert parts[..|parts|] == parts;
  }

  /** Inside `a + parts.join(sep) + c`, part `k` is followed by the
      separator, or, when it is the last part, by `c` and nothing else. */
  lemma AfterPart(a: string, parts: seq<string>, sep: string, c: string, k: nat)
    requires k < |parts|
    ensures var s := a + Join(parts, sep) + c;
            var end := |a| + JoinOffset(parts, sep, k) + |parts[k]|;
            && (k + 1 < |parts| ==> OccursAt(s, sep, end))
            && (k + 1 == |parts| ==> end <= |s| && s[end..] == c)
  {
    var whole := Join(parts, sep);
    var end := JoinOffset(parts, sep, k) + |parts[k]|;
    if k + 1 < |parts| {
      SepAfterPart(parts, sep, k);
      OccursAtShift(a, whole, c, sep, end);
    } else {
      LastPartEnds(parts, sep);
      TailAfter(a, whole, c);
    }
  }

  /** Part `k` of `a + parts.join(sep) + c`: where it sits, where the next
      part starts, and what follows it. */
  lemma PartPlaced(s: string, a: string, parts: seq<string>, sep: string, c: string, k: nat, off: nat, part: string)
    requires s == a + Join(parts, sep) + c
    requires k < |parts| && part == parts[k] && off == |a| + JoinOffset(parts, sep, k)
    ensures off + |part| <= |s| && s[off..][..|part|] == part
    ensures k + 1 < |parts| ==> off + |part| + |sep| == |a| + JoinOffset(parts, sep, k + 1)
    ensures k + 1 < |parts| ==> OccursAt(s, sep, off + |part|)
    ensures k + 1 == |parts| ==> off + |part| <= |s| && s[off + |part|..] == c
  {
    assert off + |part| <= |s| && s[off..][..|part|] == part by {
      PartAt(parts, sep, k);
      MiddleSlice(a, Join(parts, sep), c, JoinOffset(parts, sep, k), |parts[k]|);
    }
    assert k + 1 < |parts| ==> off + |part| + |sep| == |a| + JoinOffset(parts, sep, k + 1) by {
      PartAt(parts, sep, k);
    }
    AfterPart(a, parts, sep, c, k);
  }

  /** `t` occurs in `s` starting at index `i`. */
  predicate OccursAt(s: string, t: string, i: nat) {
    i + |t| <= |s| && s[i..i + |t|] == t
  }

  /** `s.indexOf(t)`: the first index at which `t` occurs, or none. */
  function IndexOf(s: string, t: string): (r: Option<nat>)
    ensures r.None? <==> forall i: nat :: i <= |s| ==> !OccursAt(s, t, i)
    ensures r.Some? ==> OccursAt(s, t, r.value) && forall j: nat :: j < r.value ==> !OccursAt(s, t, j)
  {
    IndexFrom(s, t, 0)
  }

  function IndexFrom(s: string, t: string, from: nat): (r: Option<nat>)
    requires from <= |s| + 1
    ensures r.None? <==> forall i: nat :: from <= i <= |s| ==> !OccursAt(s, t, i)
    ensures r.Some? ==> from <= r.value && OccursAt(s, t, r.value)
                        && forall j: nat :: from <= j < r.value ==> !OccursAt(s, t, j)
    decreases |s| + 1 - from
  {
    if from > |s| then None
    else if OccursAt(s, t, from) then Some(from)
    else IndexFrom(s, t, from + 1)
  }

  /** `s.replace(t, rep)` with a string pattern: only the first occurrence of
      `t` is replaced; without one, `s` is returned. */
  function ReplaceFirst(s: string, t: string, rep: string): (r: string)
    ensures IndexOf(s, t).None? ==> r == s
    ensures IndexOf(s, t).Some? ==>
              var i := IndexOf(s, t).value;
              && |r| == |s| - |t| + |rep|
              && r[..i] == s[..i] && r[i..i + |rep|] == rep && r[i + |rep|..] == s[i + |t|..]
  {
    match IndexOf(s, t)
    case None => s
    case Some(i) => s[..i] + rep + s[i + |t|..]
  }

  /** Putting the pattern back where it was replaced restores the string. */
  lemma ReplaceFirstRoundTrip(s: string, t: string, rep: string)
    requires IndexOf(s, t).Some?
    ensures var i := IndexOf(s, t).value;
            var r := ReplaceFirst(s, t, rep);
            r[..i] + t + r[i + |rep|..] == s
  {
    var i := IndexOf(s, t).value;
    assert s == s[..i] + s[i..i + |t|] + s[i + |t|..];
  }

  /** The index of the last `c` in `s`, or none. */
  function LastIndexOf(s: string, c: char): (r: Option<nat>)
    ensures r.None? <==> forall i :: 0 <= i < |s| ==> s[i] != c
    ensures r.Some? ==> r.value < |s| && s[r.value] == c
                        && forall j :: r.value < j < |s| ==> s[j] != c
  {
    if |s| == 0 then None
    else if s[|s| - 1] == c then Some(|s| - 1)
    else LastIndexOf(s[..|s| - 1], c)
  }
}
