/** `validate_selector`: trim a CSS selector from the outside in, one
    space-delimited scope at a time, until the page accepts it. */
module Validator {
  import opened Text
  import opened Json
  import opened Dom

  /** The positions at which the trim loop can start a candidate of `s`:
      the whole string, or right after a space. */
  predicate CutPoint(s: string, i: int) {
    i == 0 || (0 < i <= |s| && s[i - 1] == ' ')
  }

  /** `r` is the longest candidate of `s` the engine accepts on `doc`, or ""
      when it accepts none of the non-empty ones. */
  predicate LongestAcceptedCut<E>(eng: Engine<E>, doc: E, s: string, r: string) {
    && |r| <= |s| && r == s[|s| - |r|..]
    && (r != "" ==> CutPoint(s, |s| - |r|) && Accepts(eng, doc, r))
    && (forall i :: 0 <= i < |s| - |r| && CutPoint(s, i) ==> !Accepts(eng, doc, s[i..]))
  }

  /** The cut points of `t` after the first one are those of what follows its first space. */
  lemma CutPointsAfterSpace(t: string, i: int)
    requires ' ' in t && 0 < i <= |t| && CutPoint(t, i)
    ensures var k := FirstSpace(t);
      k + 1 <= i && CutPoint(AfterFirstSpace(t), i - (k + 1))
      && t[i..] == AfterFirstSpace(t)[i - (k + 1)..]
  {
    var k := FirstSpace(t);
    assert t[i - 1] == ' ';
    var a := AfterFirstSpace(t);
    assert a == t[k + 1..];
    var j := i - (k + 1);
    if j > 0 {
      assert a[j - 1] == t[i - 1];
    }
    assert t[i..] == a[j..];
  }

  /** The `while True` loop of validate_selector, from candidate `current` on.
      A candidate the engine raises on counts as not accepted. */
  function Trim<E>(eng: Engine<E>, doc: E, current: string): (r: string)
    ensures LongestAcceptedCut(eng, doc, current, r)
    decreases |current|
  {
    if Accepts(eng, doc, current) then current
    else if ' ' !in current then
      assert forall i :: CutPoint(current, i) && i < |current| ==> i == 0;
      ""
    else
      var r := Trim(eng, doc, AfterFirstSpace(current));
      TrimStep(eng, doc, current, r);
      r
  }

  /** One round of the loop: when `current` is rejected, the longest accepted
      cut of what follows its first space is the longest accepted cut of
      `current`. */
  lemma TrimStep<E>(eng: Engine<E>, doc: E, current: string, r: string)
    requires ' ' in current && !Accepts(eng, doc, current)
    requires LongestAcceptedCut(eng, doc, AfterFirstSpace(current), r)
    ensures LongestAcceptedCut(eng, doc, current, r)
  {
    var rest := AfterFirstSpace(current);
    var k := FirstSpace(current);
    assert rest == current[k + 1..];
    assert current[|current| - |r|..] == rest[|rest| - |r|..];
    if r != "" && |rest| - |r| > 0 {
      assert current[|current| - |r| - 1] == rest[|rest| - |r| - 1];
    }
    forall i | CutPoint(current, i) && i < |current| - |r|
      ensures !Accepts(eng, doc, current[i..])
    {
      if i > 0 {
        CutPointsAfterSpace(current, i);
      }
    }
  }

  /** `validate_selector(soup, selector)`: a non-string selector gives "";
      a string is stripped and then trimmed scope by scope. */
  function Validate<E>(eng: Engine<E>, doc: E, selector: Value): (r: string)
    ensures !selector.Str? ==> r == ""
    ensures selector.Str? ==> LongestAcceptedCut(eng, doc, Strip(selector.s, IsSpace), r)
  {
    if selector.Str? then Trim(eng, doc, Strip(selector.s, IsSpace)) else ""
  }

  /** The contract of `Trim` determines its result: at most one string is the
      longest accepted cut. */
  lemma LongestAcceptedCutUnique<E>(eng: Engine<E>, doc: E, s: string, r1: string, r2: string)
    requires LongestAcceptedCut(eng, doc, s, r1) && LongestAcceptedCut(eng, doc, s, r2)
    ensures r1 == r2
  {
  }

  /** A validated selector, validated again on the same page, is unchanged,
      provided it does not start with whitespace (which `split(" ", 1)` can
      leave and the second call would strip). */
  lemma ValidateIdempotent<E>(eng: Engine<E>, doc: E, selector: Value)
    requires var r := Validate(eng, doc, selector); r == "" || !IsSpace(r[0])
    ensures var r := Validate(eng, doc, selector); Validate(eng, doc, Str(r)) == r
  {
    var r := Validate(eng, doc, selector);
    if r == "" {
      StripKeepsTight(r, IsSpace);
      assert Trim(eng, doc, r) == r;
    } else {
      var s := Strip(selector.s, IsSpace);
      StripEndsKept(selector.s, IsSpace);
      assert r[|r| - 1] == s[|s| - 1];
      StripKeepsTight(r, IsSpace);
      assert Accepts(eng, doc, r);
      assert Trim(eng, doc, r) == r;
    }
  }

  /** Where the first trim of the worked example below lands. */
  lemma OuterScopeCut()
    ensures AfterFirstSpace(".zzz .x .y") == ".x .y"
  {
    var sel := ".zzz .x .y";
    FirstSpaceIs(sel, 4);
    assert sel[5..] == ".x .y";
  }

  /** A rejected candidate whose first trim is accepted yields that trim. */
  lemma TrimFirstRound<E>(eng: Engine<E>, doc: E, s: string)
    requires ' ' in s && !Accepts(eng, doc, s) && Accepts(eng, doc, AfterFirstSpace(s))
    ensures Trim(eng, doc, s) == AfterFirstSpace(s)
  {
  }

  /** A rejected candidate with no space left yields "". */
  lemma TrimLastRound<E>(eng: Engine<E>, doc: E, s: string)
    requires ' ' !in s && !Accepts(eng, doc, s)
    ensures Trim(eng, doc, s) == ""
  {
  }

  /** The worked example: on a page where the outer scope `.zzz` matches
      nothing but `.x .y` does, the first trim is returned. */
  lemma ValidateTrimsOuterScope<E>(eng: Engine<E>, doc: E)
    requires !Accepts(eng, doc, ".zzz .x .y") && Accepts(eng, doc, ".x .y")
    ensures Validate(eng, doc, Str(".zzz .x .y")) == ".x .y"
  {
    StripKeepsTight(".zzz .x .y", IsSpace);
    OuterScopeCut();
    TrimFirstRound(eng, doc, ".zzz .x .y");
  }

  /** Without the leading-whitespace condition, re-validation can change the
      answer: on a page that accepts " b" but neither "a  b" nor "b", the
      selector "a  b" (two spaces) validates to " b", which re-strips to "b". */
  lemma ValidateNotIdempotentOnDoubleSpace<E>(eng: Engine<E>, doc: E)
    requires Accepts(eng, doc, " b") && !Accepts(eng, doc, "a  b") && !Accepts(eng, doc, "b")
    ensures Validate(eng, doc, Str("a  b")) == " b"
    ensures Validate(eng, doc, Str(Validate(eng, doc, Str("a  b")))) == ""
  {
    DoubleSpaceFirstCall(eng, doc);
    StripLeadingSpace();
    TrimLastRound(eng, doc, "b");
  }

  /** Whatever the page says about "b", the second call never returns the
      first call's " b": it strips the leading space before trimming, so
      re-validation changes the answer on every engine. */
  lemma ValidateDropsLeadingSpace<E>(eng: Engine<E>, doc: E)
    requires Accepts(eng, doc, " b") && !Accepts(eng, doc, "a  b")
    ensures Validate(eng, doc, Str("a  b")) == " b"
    ensures Validate(eng, doc, Str(Validate(eng, doc, Str("a  b")))) != " b"
  {
    DoubleSpaceFirstCall(eng, doc);
    StripLeadingSpace();
  }

  /** The first call of the double-space example. */
  lemma DoubleSpaceFirstCall<E>(eng: Engine<E>, doc: E)
    requires Accepts(eng, doc, " b") && !Accepts(eng, doc, "a  b")
    ensures Validate(eng, doc, Str("a  b")) == " b"
  {
    StripKeepsTight("a  b", IsSpace);
    FirstSpaceIs("a  b", 1);
    assert "a  b"[2..] == " b";
    TrimFirstRound(eng, doc, "a  b");
  }

  /** `" b".strip()` is `"b"`. */
  lemma StripLeadingSpace()
    ensures Strip(" b", IsSpace) == "b"
  {
    assert StripLeft(" b", IsSpace) == "b";
    StripKeepsTight("b", IsSpace);
  }
}
