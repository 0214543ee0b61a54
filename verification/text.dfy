/** The Python string operations the scraper relies on: `str.strip()`,
    `str.strip("/")`, `str.replace(old, new)`, `str.startswith`/`endswith`
    and `str.split(" ", 1)`. Strings are sequences of characters. */
module Text {

  /** The characters Python's `str.isspace()` accepts, which are the ones
      `str.strip()` with no argument removes. */
  predicate IsSpace(c: char) {
    || c == ' '
    || ('\t' <= c <= '\r')
    || ('\U{1c}' <= c <= '\U{1f}')
    || c == '\U{85}' || c == '\U{a0}' || c == '\U{1680}'
    || ('\U{2000}' <= c <= '\U{200a}')
    || c == '\U{2028}' || c == '\U{2029}' || c == '\U{202f}'
    || c == '\U{205f}' || c == '\U{3000}'
  }

  predicate IsSlash(c: char) {
    c == '/'
  }

  predicate StartsWith(s: string, prefix: string) {
    |prefix| <= |s| && s[..|prefix|] == prefix
  }

  predicate EndsWith(s: string, suffix: string) {
    |suffix| <= |s| && s[|s| - |suffix|..] == suffix
  }

  /** Drops the leading characters that satisfy `drop`. */
  function StripLeft(s: string, drop: char -> bool): (r: string)
    ensures |r| <= |s| && r == s[|s| - |r|..]
    ensures r == [] || !drop(r[0])
    ensures forall k :: 0 <= k < |s| - |r| ==> drop(s[k])
    decreases |s|
  {
    if |s| > 0 && drop(s[0]) then StripLeft(s[1..], drop) else s
  }

  /** Drops the trailing characters that satisfy `drop`. */
  function StripRight(s: string, drop: char -> bool): (r: string)
    ensures |r| <= |s| && r == s[..|r|]
    ensures r == [] || !drop(r[|r| - 1])
    ensures forall k :: |r| <= k < |s| ==> drop(s[k])
    decreases |s|
  {
    if |s| > 0 && drop(s[|s| - 1]) then StripRight(s[..|s| - 1], drop) else s
  }

  /** Python's `s.strip(chars)`: both ends lose every character in the set. */
  function Strip(s: string, drop: char -> bool): string {
    StripRight(StripLeft(s, drop), drop)
  }

  /** A stripped string is the infix of the input that starts after the
      leading droppable run; its two ends are kept characters, and everything
      cut away on either side is droppable. */
  lemma StripIsTightInfix(s: string, drop: char -> bool)
    ensures var i, r := |s| - |StripLeft(s, drop)|, Strip(s, drop);
      && i + |r| <= |s| && r == s[i..i + |r|]
      && (forall k :: 0 <= k < i ==> drop(s[k]))
      && (forall k :: i + |r| <= k < |s| ==> drop(s[k]))
      && (r == [] || (!drop(r[0]) && !drop(r[|r| - 1])))
  {
    var l := StripLeft(s, drop);
    var r := StripRight(l, drop);
    assert Strip(s, drop) == r;
    StripEndsKept(s, drop);
    PrefixOfSuffix(s, l, r, drop);
  }

  /** A prefix `r` of a suffix `l` of `s` is the infix of `s` at `|s| - |l|`;
      whatever `l` cut from the front and `r` from the back of `l` is cut
      from `s`. */
  lemma PrefixOfSuffix(s: string, l: string, r: string, drop: char -> bool)
    requires |l| <= |s| && l == s[|s| - |l|..] && forall k :: 0 <= k < |s| - |l| ==> drop(s[k])
    requires |r| <= |l| && r == l[..|r|] && forall k :: |r| <= k < |l| ==> drop(l[k])
    ensures var i := |s| - |l|;
      && i + |r| <= |s| && r == s[i..i + |r|]
      && (forall k :: 0 <= k < i ==> drop(s[k]))
      && (forall k :: i + |r| <= k < |s| ==> drop(s[k]))
  {
    var i := |s| - |l|;
    forall k | i + |r| <= k < |s| ensures drop(s[k]) {
      assert s[k] == l[k - i];
    }
  }

  /** Neither end of a stripped string can be dropped. */
  lemma StripEndsKept(s: string, drop: char -> bool)
    ensures var r := Strip(s, drop); r == [] || (!drop(r[0]) && !drop(r[|r| - 1]))
  {
    var l := StripLeft(s, drop);
    var r := StripRight(l, drop);
    if r != [] {
      assert r[0] == l[0];
    }
  }

  /** Stripping leaves a string alone when neither end can be dropped. */
  lemma StripKeepsTight(s: string, drop: char -> bool)
    requires s == [] || (!drop(s[0]) && !drop(s[|s| - 1]))
    ensures Strip(s, drop) == s
  {
  }

  /** Stripping twice is stripping once. */
  lemma StripIdempotent(s: string, drop: char -> bool)
    ensures Strip(Strip(s, drop), drop) == Strip(s, drop)
  {
    StripIsTightInfix(s, drop);
    StripKeepsTight(Strip(s, drop), drop);
  }

  /** Python's `s.replace(old, new)`: non-overlapping occurrences of `old`,
      found from left to right, each become `rep`. */
  function ReplaceAll(s: string, pat: string, rep: string): string
    requires |pat| > 0
    decreases |s|
  {
    if |s| < |pat| then s
    else if s[..|pat|] == pat then rep + ReplaceAll(s[|pat|..], pat, rep)
    else [s[0]] + ReplaceAll(s[1..], pat, rep)
  }

  /** The number of occurrences `ReplaceAll` rewrites, i.e. Python's `s.count(old)`. */
  function Count(s: string, pat: string): nat
    requires |pat| > 0
    decreases |s|
  {
    if |s| < |pat| then 0
    else if s[..|pat|] == pat then 1 + Count(s[|pat|..], pat)
    else Count(s[1..], pat)
  }

  /** Every replaced occurrence changes the length by `|new| - |old|`. */
  lemma {:induction false} ReplaceAllLength(s: string, pat: string, rep: string)
    requires |pat| > 0
    ensures |ReplaceAll(s, pat, rep)| == |s| + Count(s, pat) * (|rep| - |pat|)
    decreases |s|
  {
    if |s| < |pat| {
    } else if s[..|pat|] == pat {
      ReplaceAllLength(s[|pat|..], pat, rep);
      assert ReplaceAll(s, pat, rep) == rep + ReplaceAll(s[|pat|..], pat, rep);
      assert Count(s, pat) == 1 + Count(s[|pat|..], pat);
      MulSucc(Count(s[|pat|..], pat), |rep| - |pat|);
    } else {
      ReplaceAllLength(s[1..], pat, rep);
    }
  }

  lemma MulSucc(c: int, d: int)
    ensures (c + 1) * d == c * d + d
  {
  }

  /** The output only holds characters of the input or of the replacement. */
  lemma {:induction false} ReplaceAllChars(s: string, pat: string, rep: string)
    requires |pat| > 0
    ensures forall c :: c in ReplaceAll(s, pat, rep) ==> c in s || c in rep
    decreases |s|
  {
    if |s| < |pat| {
    } else if s[..|pat|] == pat {
      ReplaceAllChars(s[|pat|..], pat, rep);
      var t := s[|pat|..];
      forall c | c in t ensures c in s {
        var k :| 0 <= k < |t| && t[k] == c;
        assert s[|pat| + k] == c;
      }
    } else {
      ReplaceAllChars(s[1..], pat, rep);
      forall c | c in s[1..] ensures c in s {
        var k :| 0 <= k < |s[1..]| && s[1..][k] == c;
        assert s[k + 1] == c;
      }
    }
  }

  /** A string in which some character of `pat` never occurs holds no
      occurrence of `pat`, so replacing it changes nothing. */
  lemma {:induction false} ReplaceAllAbsent(s: string, pat: string, rep: string, c: char)
    requires |pat| > 0 && c in pat && c !in s
    ensures ReplaceAll(s, pat, rep) == s
    decreases |s|
  {
    if |s| < |pat| {
    } else {
      assert c !in s[..|pat|];
      assert c !in s[1..];
      ReplaceAllAbsent(s[1..], pat, rep, c);
      assert s == [s[0]] + s[1..];
    }
  }

  /** A string that does not start with `pat`'s first character keeps its
      first character and is rewritten from the second on. */
  lemma ReplaceAllSkip(s: string, pat: string, rep: string)
    requires |pat| > 0 && |s| >= |pat| && s[0] != pat[0]
    ensures ReplaceAll(s, pat, rep) == [s[0]] + ReplaceAll(s[1..], pat, rep)
  {
    assert s[..|pat|][0] == s[0];
  }

  /** When the first character of `pat` does not occur in `x`, the first
      occurrence in `x + pat + y` is the one right after `x`. */
  lemma {:induction false} ReplaceAllFirstAfter(x: string, y: string, pat: string, rep: string)
    requires |pat| > 0 && pat[0] !in x
    ensures ReplaceAll(x + pat + y, pat, rep) == x + rep + ReplaceAll(y, pat, rep)
    decreases |x|
  {
    var s := x + pat + y;
    if x == [] {
      assert s[..|pat|] == pat && s[|pat|..] == y;
    } else {
      assert s[0] == x[0] && s[1..] == x[1..] + pat + y;
      ReplaceAllSkip(s, pat, rep);
      ReplaceAllFirstAfter(x[1..], y, pat, rep);
      assert [x[0]] + (x[1..] + rep + ReplaceAll(y, pat, rep)) == x + rep + ReplaceAll(y, pat, rep);
    }
  }

  /** Replacing one character by one character is a position-wise substitution. */
  lemma {:induction false} ReplaceCharPointwise(s: string, a: char, b: char)
    ensures |ReplaceAll(s, [a], [b])| == |s|
    ensures forall i :: 0 <= i < |s| ==>
      ReplaceAll(s, [a], [b])[i] == (if s[i] == a then b else s[i])
    decreases |s|
  {
    if |s| >= 1 {
      ReplaceCharPointwise(s[1..], a, b);
    }
  }

  /** The index of the first space in `t`. */
  function FirstSpace(t: string): (k: nat)
    requires ' ' in t
    ensures k < |t| && t[k] == ' '
    ensures forall j :: 0 <= j < k ==> t[j] != ' '
  {
    if t[0] == ' ' then 0 else 1 + FirstSpace(t[1..])
  }

  /** A space with no space before it is the first space. */
  lemma FirstSpaceIs(t: string, k: nat)
    requires k < |t| && t[k] == ' '
    requires forall j :: 0 <= j < k ==> t[j] != ' '
    ensures FirstSpace(t) == k
  {
  }

  /** Python's `t.split(" ", 1)[1]`: what follows the first space. */
  function AfterFirstSpace(t: string): (r: string)
    requires ' ' in t
    ensures |r| < |t|
  {
    t[FirstSpace(t) + 1..]
  }
}
