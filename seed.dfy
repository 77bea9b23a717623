/**
 * The `slugify` helper of the demo-data script: lower-case the text, turn
 * every run of characters outside `[a-z0-9]` into one dot, strip the dots at
 * both ends, and fall back to `"club"` when nothing is left.
 */
module Seed {
  import opened Builtins

  /** The characters that survive `[^a-z0-9]+` replacement untouched. */
  predicate IsDot(c: char) { c == '.' }

  /** `re.sub(r"[^a-z0-9]+", ".", s)`: each maximal run of other characters becomes one dot. */
  function CollapseRuns(s: string): string
    decreases |s|
  {
    if s == [] then []
    else if IsLowerAlnum(s[0]) then [s[0]] + CollapseRuns(s[1..])
    else "." + CollapseRuns(SkipRun(s[1..]))
  }

  /** What follows a run of characters outside `[a-z0-9]`. */
  function SkipRun(s: string): (r: string)
    ensures |r| <= |s|
    ensures r == [] || IsLowerAlnum(r[0])
  {
    if s != [] && !IsLowerAlnum(s[0]) then SkipRun(s[1..]) else s
  }

  /** `slugify(value)` of scripts/seed.py. */
  function Slugify(value: string): string
  {
    var stripped := StripWhere(CollapseRuns(Lower(value)), IsDot);
    if stripped == [] then "club" else stripped
  }

  // ---------------------------------------------------------------- what a slug is

  predicate SlugChars(s: string)
  {
    forall i :: 0 <= i < |s| ==> IsLowerAlnum(s[i]) || s[i] == '.'
  }

  predicate NoDoubleDots(s: string)
  {
    forall i :: 0 <= i < |s| - 1 ==> !(s[i] == '.' && s[i + 1] == '.')
  }

  /** Non-empty, only `a-z`, `0-9` and `.`, no dot at either end, no two dots in a row. */
  predicate IsSlug(s: string)
  {
    && |s| > 0
    && SlugChars(s)
    && NoDoubleDots(s)
    && s[0] != '.'
    && s[|s| - 1] != '.'
  }

  predicate IsAsciiAlnum(c: char) { IsUpper(c) || IsLowerAlnum(c) }

  // ---------------------------------------------------------------- the collapsing step

  lemma {:induction false} CollapseStartsWithKept(s: string)
    requires s != [] && IsLowerAlnum(s[0])
    ensures CollapseRuns(s) != [] && CollapseRuns(s)[0] == s[0]
  {
  }

  /** After `re.sub`, only slug characters remain and dots never touch. */
  lemma {:induction false} CollapseShape(s: string)
    ensures SlugChars(CollapseRuns(s)) && NoDoubleDots(CollapseRuns(s))
    decreases |s|
  {
    if s == [] {
    } else if IsLowerAlnum(s[0]) {
      CollapseShape(s[1..]);
    } else {
      var t := SkipRun(s[1..]);
      CollapseShape(t);
      var r := CollapseRuns(t);
      if t != [] {
        CollapseStartsWithKept(t);
        assert r[0] != '.';
      }
      assert CollapseRuns(s) == "." + r;
    }
  }

  /** A text with no ASCII letter or digit collapses to at most one dot. */
  lemma {:induction false} CollapseNothingKept(s: string)
    requires forall i :: 0 <= i < |s| ==> !IsLowerAlnum(s[i])
    ensures CollapseRuns(s) == [] || CollapseRuns(s) == "."
  {
    if s != [] {
      SkipRunAll(s[1..]);
    }
  }

  lemma {:induction false} SkipRunAll(s: string)
    requires forall i :: 0 <= i < |s| ==> !IsLowerAlnum(s[i])
    ensures SkipRun(s) == []
    decreases |s|
  {
    if s != [] {
      SkipRunAll(s[1..]);
    }
  }

  /** A string that is already slug-shaped passes through `re.sub` unchanged. */
  lemma {:induction false} CollapseKeepsSlug(s: string)
    requires SlugChars(s) && NoDoubleDots(s)
    ensures CollapseRuns(s) == s
    decreases |s|
  {
    if s != [] {
      var rest := s[1..];
      assert SlugChars(rest) && NoDoubleDots(rest);
      CollapseKeepsSlug(rest);
      if !IsLowerAlnum(s[0]) {
        assert rest == [] || IsLowerAlnum(rest[0]);
        assert SkipRun(rest) == rest;
      }
    }
  }

  // ---------------------------------------------------------------- the strip step

  lemma {:induction false} StripLeadingIsSuffix(s: string, drop: char -> bool)
    ensures |StripLeading(s, drop)| <= |s|
    ensures StripLeading(s, drop) == s[|s| - |StripLeading(s, drop)|..]
    decreases |s|
  {
    if s != [] && drop(s[0]) {
      StripLeadingIsSuffix(s[1..], drop);
    }
  }

  lemma {:induction false} StripTrailingIsPrefix(s: string, drop: char -> bool)
    ensures |StripTrailing(s, drop)| <= |s|
    ensures StripTrailing(s, drop) == s[..|StripTrailing(s, drop)|]
    decreases |s|
  {
    if s != [] && drop(s[|s| - 1]) {
      StripTrailingIsPrefix(s[..|s| - 1], drop);
    }
  }

  /** Stripping dots keeps a contiguous piece, with no dot left at either end. */
  lemma StripDotsShape(s: string)
    requires SlugChars(s) && NoDoubleDots(s)
    ensures var r := StripWhere(s, IsDot);
      SlugChars(r) && NoDoubleDots(r) && (r != [] ==> r[0] != '.' && r[|r| - 1] != '.')
  {
    var a := StripLeading(s, IsDot);
    StripLeadingIsSuffix(s, IsDot);
    var k := |s| - |a|;
    assert a == s[k..];
    assert forall i :: 0 <= i < |a| ==> a[i] == s[k + i];
    var r := StripTrailing(a, IsDot);
    StripTrailingIsPrefix(a, IsDot);
    assert r == a[..|r|];
    assert forall i :: 0 <= i < |r| ==> r[i] == s[k + i];
    assert r != [] ==> r[0] == a[0];
  }

  // ---------------------------------------------------------------- the promises

  /** Every output is a slug: the charset, no edge dots, no double dots, never empty. */
  lemma SlugifyIsSlug(value: string)
    ensures IsSlug(Slugify(value))
  {
    var c := CollapseRuns(Lower(value));
    CollapseShape(Lower(value));
    StripDotsShape(c);
    var r := StripWhere(c, IsDot);
    if r == [] {
      assert Slugify(value) == "club";
      assert "club"[0] == 'c' && "club"[3] == 'b';
    }
  }

  /** An input without any ASCII letter or digit gives the fallback `"club"`. */
  lemma SlugifyFallback(value: string)
    requires forall i :: 0 <= i < |value| ==> !IsAsciiAlnum(value[i])
    ensures Slugify(value) == "club"
  {
    var l := Lower(value);
    assert forall i :: 0 <= i < |l| ==> !IsLowerAlnum(l[i]);
    CollapseNothingKept(l);
    var c := CollapseRuns(l);
    if c == "." {
      assert StripLeading(c, IsDot) == StripLeading([], IsDot);
    }
  }

  /** A slug is its own slug. */
  lemma SlugifyKeepsSlug(s: string)
    requires IsSlug(s)
    ensures Slugify(s) == s
  {
    LowerKeepsLowercase(s);
    CollapseKeepsSlug(s);
    StripKeepsTrimmed(s, IsDot);
  }

  /** `slugify(slugify(x)) == slugify(x)`. */
  lemma SlugifyIdempotent(value: string)
    ensures Slugify(Slugify(value)) == Slugify(value)
  {
    SlugifyIsSlug(value);
    SlugifyKeepsSlug(Slugify(value));
  }
}
