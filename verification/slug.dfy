/**
 * The slug generator of the article mapper. The code lower-cases the title, then deletes every
 * character outside [a-zA-Z0-9], then replaces whitespace runs with a hyphen, collapses hyphen
 * runs and trims. Each step is modelled as written; the lemmas show that the last three steps
 * never change anything, because the first deletion already removed spaces and hyphens.
 */
module Slug {
  import opened Ascii

  /** replaceAll("[^a-zA-Z0-9]", ""): keeps the ASCII letters and digits, in order. */
  function KeepAlnum(s: string): (r: string)
    ensures |r| <= |s|
    ensures forall i :: 0 <= i < |r| ==> IsAlnum(r[i])
  {
    if s == [] then []
    else (if IsAlnum(s[0]) then [s[0]] else []) + KeepAlnum(s[1..])
  }

  /** Drops the leading run of characters that satisfy inRun. */
  function DropRun(s: string, inRun: char -> bool): (r: string)
    ensures |r| <= |s|
    ensures r == s[|s| - |r|..]
  {
    if s != [] && inRun(s[0]) then DropRun(s[1..], inRun) else s
  }

  /** replaceAll("X+", rep): every maximal run of characters satisfying inRun becomes the single character rep. */
  function ReplaceRuns(s: string, inRun: char -> bool, rep: char): (r: string)
    decreases |s|
  {
    if s == [] then []
    else if inRun(s[0]) then [rep] + ReplaceRuns(DropRun(s[1..], inRun), inRun, rep)
    else [s[0]] + ReplaceRuns(s[1..], inRun, rep)
  }

  predicate IsHyphen(c: char) {
    c == '-'
  }

  /** Removes trailing characters up to and including the space. */
  function TrimEnd(s: string): (r: string)
    ensures |r| <= |s|
  {
    if s != [] && IsTrimmable(s[|s| - 1]) then TrimEnd(s[..|s| - 1]) else s
  }

  /** String.trim. */
  function Trim(s: string): string {
    TrimEnd(DropRun(s, IsTrimmable))
  }

  /** A slug as the generator can produce it: lower-case ASCII letters and digits only. */
  predicate IsSlug(s: string) {
    forall i :: 0 <= i < |s| ==> IsLowerLetter(s[i]) || IsDigit(s[i])
  }

  /** Reference definition: the alphanumeric characters of the title, each lower-cased. */
  function LoweredAlnum(t: string): string {
    if t == [] then []
    else (if IsAlnum(t[0]) then [ToLower(t[0])] else []) + LoweredAlnum(t[1..])
  }

  /** ArticleMapper.generateSlug, step by step as written. */
  function GenerateSlug(title: string): (r: string)
    ensures IsSlug(r)
    ensures |r| <= |title|
    ensures r == LoweredAlnum(title)
  {
    var stripped := KeepAlnum(Lower(title));
    var spaced := ReplaceRuns(stripped, IsSpace, '-');
    var collapsed := ReplaceRuns(spaced, IsHyphen, '-');
    PipelineIsFilter(title);
    Trim(collapsed)
  }

  lemma {:induction false} KeepAlnumOfLowerIsLoweredAlnum(t: string)
    ensures KeepAlnum(Lower(t)) == LoweredAlnum(t)
    ensures |LoweredAlnum(t)| <= |t|
  {
    if t != [] {
      assert Lower(t)[0] == ToLower(t[0]);
      assert Lower(t)[1..] == Lower(t[1..]);
      KeepAlnumOfLowerIsLoweredAlnum(t[1..]);
    }
  }

  lemma {:induction false} LoweredAlnumIsSlug(t: string)
    ensures IsSlug(LoweredAlnum(t))
  {
    if t != [] {
      LoweredAlnumIsSlug(t[1..]);
      var head := if IsAlnum(t[0]) then [ToLower(t[0])] else [];
      assert LoweredAlnum(t) == head + LoweredAlnum(t[1..]);
    }
  }

  /** A run-replacement step leaves a string alone when no character of it belongs to the run class. */
  lemma {:induction false} ReplaceRunsNoRun(s: string, inRun: char -> bool, rep: char)
    requires forall i :: 0 <= i < |s| ==> !inRun(s[i])
    ensures ReplaceRuns(s, inRun, rep) == s
    decreases |s|
  {
    if s != [] {
      ReplaceRunsNoRun(s[1..], inRun, rep);
    }
  }

  /** String.trim leaves a string alone when it neither starts nor ends with a trimmable character. */
  lemma TrimSlug(s: string)
    requires IsSlug(s)
    ensures Trim(s) == s
  {
    assert DropRun(s, IsTrimmable) == s;
  }

  /** The whole pipeline computes the reference definition. */
  lemma {:induction false} PipelineIsFilter(title: string)
    ensures
      var collapsed := ReplaceRuns(ReplaceRuns(KeepAlnum(Lower(title)), IsSpace, '-'), IsHyphen, '-');
      Trim(collapsed) == LoweredAlnum(title)
    ensures IsSlug(LoweredAlnum(title))
    ensures |LoweredAlnum(title)| <= |title|
  {
    var stripped := KeepAlnum(Lower(title));
    KeepAlnumOfLowerIsLoweredAlnum(title);
    LoweredAlnumIsSlug(title);
    ReplaceRunsNoRun(stripped, IsSpace, '-');
    ReplaceRunsNoRun(stripped, IsHyphen, '-');
    TrimSlug(stripped);
  }

  /** The whitespace-to-hyphen and hyphen-collapsing rewrites never change the stripped title. */
  lemma HyphenStepsAreDead(title: string)
    ensures ReplaceRuns(KeepAlnum(Lower(title)), IsSpace, '-') == KeepAlnum(Lower(title))
    ensures ReplaceRuns(KeepAlnum(Lower(title)), IsHyphen, '-') == KeepAlnum(Lower(title))
  {
    ReplaceRunsNoRun(KeepAlnum(Lower(title)), IsSpace, '-');
    ReplaceRunsNoRun(KeepAlnum(Lower(title)), IsHyphen, '-');
  }

  /** No slug contains a hyphen or a whitespace character, so none starts or ends with one. */
  lemma SlugHasNoSeparators(title: string)
    ensures forall i :: 0 <= i < |GenerateSlug(title)| ==>
      !IsHyphen(GenerateSlug(title)[i]) && !IsSpace(GenerateSlug(title)[i])
  {
  }

  /** A slug lower-cased and filtered again is itself. */
  lemma {:induction false} LoweredAlnumOfSlug(s: string)
    requires IsSlug(s)
    ensures LoweredAlnum(s) == s
  {
    if s != [] {
      assert IsSlug(s[1..]);
      LoweredAlnumOfSlug(s[1..]);
      assert s == [s[0]] + s[1..];
    }
  }

  /** Generating a slug from a slug gives the same slug. */
  lemma SlugIdempotent(title: string)
    ensures GenerateSlug(GenerateSlug(title)) == GenerateSlug(title)
  {
    LoweredAlnumOfSlug(GenerateSlug(title));
  }

  lemma {:induction false} LoweredAlnumAppend(a: string, b: string)
    ensures LoweredAlnum(a + b) == LoweredAlnum(a) + LoweredAlnum(b)
  {
    if a == [] {
      assert a + b == b;
    } else {
      var head := if IsAlnum(a[0]) then [ToLower(a[0])] else [];
      assert (a + b)[0] == a[0];
      assert (a + b)[1..] == a[1..] + b;
      assert LoweredAlnum(a + b) == head + LoweredAlnum(a[1..] + b);
      LoweredAlnumAppend(a[1..], b);
      assert LoweredAlnum(a) == head + LoweredAlnum(a[1..]);
    }
  }
}
