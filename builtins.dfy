/**
 * The Python built-ins the application leans on, over ASCII text: `None`,
 * `str(n)`, `int(s)`, `str.isdigit`, `str.lower`, `str.strip`,
 * `str.startswith` and a one-character `str.replace`.
 */
module Builtins {

  /** Python's `None`, or a present value. */
  datatype Option<T> = None | Some(value: T)

  // ---------------------------------------------------------------- characters

  predicate IsDigit(c: char) { '0' <= c <= '9' }

  predicate IsUpper(c: char) { 'A' <= c <= 'Z' }

  /** The characters the slug pattern `[a-z0-9]` keeps. */
  predicate IsLowerAlnum(c: char) { 'a' <= c <= 'z' || IsDigit(c) }

  /** The ASCII part of `str.isspace`: space, `\t` to `\r`, and `\x1c` to `\x1f`. */
  predicate IsSpace(c: char) { c == ' ' || 9 <= c as int <= 13 || 28 <= c as int <= 31 }

  function LowerChar(c: char): char
  {
    if IsUpper(c) then (c as int + 32) as char else c
  }

  // ---------------------------------------------------------------- strings

  /** `s.lower()`: ASCII capitals become small letters, nothing else changes. */
  function Lower(s: string): string
  {
    seq(|s|, i requires 0 <= i < |s| => LowerChar(s[i]))
  }

  /** `s.replace(a, b)` for single characters. */
  function ReplaceChar(s: string, a: char, b: char): string
  {
    seq(|s|, i requires 0 <= i < |s| => if s[i] == a then b else s[i])
  }

  predicate StartsWith(s: string, prefix: string)
  {
    |prefix| <= |s| && s[..|prefix|] == prefix
  }

  /** `t` occurs in `s` as a contiguous piece. */
  ghost predicate Contains(s: string, t: string)
  {
    exists p, q :: s == p + t + q
  }

  lemma {:induction false} LowerKeepsLowercase(s: string)
    requires forall i :: 0 <= i < |s| ==> !IsUpper(s[i])
    ensures Lower(s) == s
  {
    assert forall i :: 0 <= i < |s| ==> Lower(s)[i] == s[i];
  }

  /** Lower-casing twice changes nothing more. */
  lemma LowerIdempotent(s: string)
    ensures Lower(Lower(s)) == Lower(s)
  {
    assert forall i :: 0 <= i < |s| ==> Lower(Lower(s))[i] == Lower(s)[i];
  }

  /** A lower-cased text holds no capital letter. */
  lemma LowerHasNoUpper(s: string)
    ensures forall i :: 0 <= i < |Lower(s)| ==> !IsUpper(Lower(s)[i])
  {
  }

  // ---------------------------------------------------------------- strip

  function StripLeading(s: string, drop: char -> bool): (r: string)
    ensures r == [] || !drop(r[0])
  {
    if s != [] && drop(s[0]) then StripLeading(s[1..], drop) else s
  }

  function StripTrailing(s: string, drop: char -> bool): (r: string)
    ensures r == [] || !drop(r[|r| - 1])
  {
    if s != [] && drop(s[|s| - 1]) then StripTrailing(s[..|s| - 1], drop) else s
  }

  /** `s.strip(chars)`: drop every leading and trailing character `drop` selects. */
  function StripWhere(s: string, drop: char -> bool): string
  {
    StripTrailing(StripLeading(s, drop), drop)
  }

  /** `s.strip()` with no argument. */
  function Strip(s: string): string
  {
    StripWhere(s, IsSpace)
  }

  /** A string whose ends are not dropped is its own strip. */
  lemma StripKeepsTrimmed(s: string, drop: char -> bool)
    requires s == [] || (!drop(s[0]) && !drop(s[|s| - 1]))
    ensures StripWhere(s, drop) == s
  {
  }

  /** Stripping from the left empties a string exactly when every character is dropped. */
  lemma {:induction false} StripLeadingEmpty(s: string, drop: char -> bool)
    ensures StripLeading(s, drop) == [] <==> forall i :: 0 <= i < |s| ==> drop(s[i])
  {
    if s != [] && drop(s[0]) {
      StripLeadingEmpty(s[1..], drop);
      assert forall i :: 1 <= i < |s| ==> s[i] == s[1..][i - 1];
    }
  }

  /** Stripping from the right empties a string exactly when every character is dropped. */
  lemma {:induction false} StripTrailingEmpty(s: string, drop: char -> bool)
    ensures StripTrailing(s, drop) == [] <==> forall i :: 0 <= i < |s| ==> drop(s[i])
  {
    if s != [] && drop(s[|s| - 1]) {
      StripTrailingEmpty(s[..|s| - 1], drop);
      assert forall i :: 0 <= i < |s| - 1 ==> s[i] == s[..|s| - 1][i];
    }
  }

  /** `s.strip()` is empty exactly when `s` holds nothing but whitespace. */
  lemma StripBlank(s: string)
    ensures Strip(s) == [] <==> forall i :: 0 <= i < |s| ==> IsSpace(s[i])
  {
    var left := StripLeading(s, IsSpace);
    StripLeadingEmpty(s, IsSpace);
    StripTrailingEmpty(left, IsSpace);
  }

  // ---------------------------------------------------------------- numbers

  predicate AllDigits(s: string)
  {
    forall i :: 0 <= i < |s| ==> IsDigit(s[i])
  }

  /** `s.isdigit()`: at least one character, and every character a digit. */
  predicate IsDigits(s: string)
  {
    |s| > 0 && AllDigits(s)
  }

  /** The value of a string of decimal digits, as `int(s)` reads it. */
  function DigitsValue(s: string): nat
    requires AllDigits(s)
  {
    if s == [] then 0 else 10 * DigitsValue(s[..|s| - 1]) + (s[|s| - 1] as int - '0' as int)
  }

  function DigitChar(d: nat): char
    requires d < 10
  {
    ('0' as int + d) as char
  }

  /** `str(n)` for a non-negative integer. */
  function NatToString(n: nat): (s: string)
    ensures IsDigits(s)
  {
    if n < 10 then [DigitChar(n)] else NatToString(n / 10) + [DigitChar(n % 10)]
  }

  /** `str(i)` for any integer: a minus sign before the digits of a negative value. */
  function IntToString(i: int): (s: string)
    ensures |s| > 0 && IsDigit(s[|s| - 1])
    ensures s[0] == '-' || IsDigit(s[0])
  {
    if i < 0 then "-" + NatToString(-i) else NatToString(i)
  }

  /**
   * The digit part `int()` accepts: decimal digits, where a single `_` may
   * stand between two digits; no `_` at either end and never two in a row.
   */
  predicate DigitGroups(s: string)
  {
    && |s| > 0 && IsDigit(s[0]) && IsDigit(s[|s| - 1])
    && (forall i :: 0 <= i < |s| ==> IsDigit(s[i]) || s[i] == '_')
    && (forall i :: 0 <= i < |s| - 1 ==> !DoubleSeparator(s, i))
  }

  /** Two `_` in a row at `i`. */
  predicate DoubleSeparator(s: string, i: nat)
    requires i < |s| - 1
  {
    s[i] == '_' && s[i + 1] == '_'
  }

  /** The digits of `s` with the `_` separators dropped. */
  function WithoutSeparators(s: string): (r: string)
    ensures (forall i :: 0 <= i < |s| ==> IsDigit(s[i]) || s[i] == '_') ==> AllDigits(r)
    ensures AllDigits(s) ==> r == s
  {
    if s == [] then []
    else if s[|s| - 1] == '_' then WithoutSeparators(s[..|s| - 1])
    else WithoutSeparators(s[..|s| - 1]) + [s[|s| - 1]]
  }

  /**
   * The most decimal digits `int()` converts from a string, the default of
   * `sys.get_int_max_str_digits()`; `str()` refuses longer output the same way.
   */
  const MaxStrDigits := 4300

  /**
   * The value of an unsigned digit part: digit groups holding at most
   * `MaxStrDigits` digits, separators not counted, or `None`.
   */
  function DigitPartValue(u: string): Option<nat>
  {
    if DigitGroups(u) && |WithoutSeparators(u)| <= MaxStrDigits then Some(DigitsValue(WithoutSeparators(u)))
    else None
  }

  /**
   * `int(s)`: optional surrounding white space, an optional sign, then at
   * most `MaxStrDigits` decimal digits, possibly grouped by single `_`
   * separators; anything else is the `ValueError` case, `None` here.
   */
  function ParseInt(s: string): Option<int>
  {
    ParseSignedDigits(Strip(s))
  }

  /** `int(t)` once the white space around `t` is gone. */
  function ParseSignedDigits(t: string): Option<int>
  {
    if |t| > 0 && (t[0] == '+' || t[0] == '-') then
      match DigitPartValue(t[1..])
      case None => None
      case Some(n) => Some(if t[0] == '-' then -(n as int) else n as int)
    else
      match DigitPartValue(t)
      case None => None
      case Some(n) => Some(n as int)
  }

  /** Reading back the digits `str(n)` wrote gives `n`. */
  lemma {:induction false} NatToStringRoundTrip(n: nat)
    ensures DigitsValue(NatToString(n)) == n
    decreases n
  {
    if n >= 10 {
      var s := NatToString(n);
      NatToStringRoundTrip(n / 10);
      assert s[..|s| - 1] == NatToString(n / 10);
    }
  }

  /** `str` is injective on non-negative integers. */
  lemma NatToStringInjective(a: nat, b: nat)
    requires NatToString(a) == NatToString(b)
    ensures a == b
  {
    NatToStringRoundTrip(a);
    NatToStringRoundTrip(b);
  }

  /** A plain run of digits is a digit part. */
  lemma DigitsAreGroups(d: string)
    requires IsDigits(d)
    ensures DigitGroups(d)
  {
    assert forall i :: 0 <= i < |d| - 1 ==> !DoubleSeparator(d, i);
  }

  /** A plain run of digits within the limit is a digit part `int()` accepts, worth its digits. */
  lemma DigitsAccepted(d: string)
    requires IsDigits(d) && |d| <= MaxStrDigits
    ensures DigitPartValue(d) == Some(DigitsValue(d))
  {
    DigitsAreGroups(d);
    assert WithoutSeparators(d) == d;
  }

  lemma ParseDigits(d: string)
    requires IsDigits(d) && |d| <= MaxStrDigits
    ensures ParseInt(d) == Some(DigitsValue(d) as int)
    ensures ParseInt("-" + d) == Some(-(DigitsValue(d) as int))
  {
    DigitsAccepted(d);
    UnsignedDigits(d);
    NegatedDigits(d);
  }

  /** An accepted run of digits with no sign is read as its value. */
  lemma UnsignedDigits(d: string)
    requires IsDigits(d) && DigitPartValue(d) == Some(DigitsValue(d))
    ensures ParseInt(d) == Some(DigitsValue(d) as int)
  {
    StripKeepsTrimmed(d, IsSpace);
    assert !(d[0] == '+' || d[0] == '-');
  }

  /** A minus sign before an accepted run of digits negates its value. */
  lemma NegatedDigits(d: string)
    requires IsDigits(d) && DigitPartValue(d) == Some(DigitsValue(d))
    ensures ParseInt("-" + d) == Some(-(DigitsValue(d) as int))
  {
    var s := "-" + d;
    StripNegated(d);
    assert s[1..] == d;
    NegatedPart(s, DigitsValue(d));
  }

  /** A minus sign before text that ends in a digit has no white space to strip. */
  lemma StripNegated(d: string)
    requires |d| > 0 && IsDigit(d[|d| - 1])
    ensures Strip("-" + d) == "-" + d
  {
    var s := "-" + d;
    assert s[|s| - 1] == d[|d| - 1];
    StripKeepsTrimmed(s, IsSpace);
  }

  /** `int()` of a minus sign before a digit part, with no white space around it. */
  lemma NegatedPart(s: string, n: nat)
    requires Strip(s) == s && |s| > 0 && s[0] == '-' && DigitPartValue(s[1..]) == Some(n)
    ensures ParseInt(s) == Some(-(n as int))
  {
  }

  /** Dropping separators commutes with concatenation. */
  lemma {:induction false} WithoutSeparatorsAppend(a: string, b: string)
    ensures WithoutSeparators(a + b) == WithoutSeparators(a) + WithoutSeparators(b)
    decreases |b|
  {
    if b != [] {
      var b' := b[..|b| - 1];
      assert (a + b)[..|a + b| - 1] == a + b';
      assert (a + b)[|a + b| - 1] == b[|b| - 1];
      WithoutSeparatorsAppend(a, b');
    } else {
      assert a + b == a;
    }
  }

  /** Two runs of digits joined by one separator form a digit part `int()` accepts. */
  lemma SeparatedDigitGroups(a: string, b: string)
    requires IsDigits(a) && IsDigits(b)
    ensures DigitGroups(a + "_" + b)
  {
    var s := a + "_" + b;
    assert s[0] == a[0] && s[|s| - 1] == b[|b| - 1];
    forall i | 0 <= i < |s| && i != |a|
      ensures IsDigit(s[i])
    {
      if i < |a| {
        assert s[i] == a[i];
      } else {
        assert s[i] == b[i - |a| - 1];
      }
    }
    forall i | 0 <= i < |s| - 1
      ensures !DoubleSeparator(s, i)
    {
      if i == |a| {
        assert s[i + 1] == b[0];
      }
    }
  }

  /** Dropping the separator between two runs of digits leaves the digits joined. */
  lemma SeparatedDigits(a: string, b: string)
    requires IsDigits(a) && IsDigits(b)
    ensures WithoutSeparators(a + "_" + b) == a + b
  {
    WithoutSeparatorsAppend(a + "_", b);
    WithoutSeparatorsAppend(a, "_");
    assert WithoutSeparators("_") == [];
  }

  /** Two runs of digits joined by one separator are worth the digits joined. */
  lemma SeparatedPartValue(a: string, b: string)
    requires IsDigits(a) && IsDigits(b) && |a| + |b| <= MaxStrDigits
    ensures DigitPartValue(a + "_" + b) == Some(DigitsValue(a + b))
  {
    SeparatedDigitGroups(a, b);
    SeparatedDigits(a, b);
  }

  /** A separator between two runs of digits leaves the value of `int()` unchanged: `int("1_000") == int("1000")`. */
  lemma SeparatorKeepsValue(a: string, b: string)
    requires IsDigits(a) && IsDigits(b) && |a| + |b| <= MaxStrDigits
    ensures ParseInt(a + "_" + b) == ParseInt(a + b) == Some(DigitsValue(a + b) as int)
  {
    var s := a + "_" + b;
    SeparatedPartValue(a, b);
    assert s[0] == a[0] && s[|s| - 1] == b[|b| - 1];
    StripKeepsTrimmed(s, IsSpace);
    assert ParseSignedDigits(s) == Some(DigitsValue(a + b) as int);
    ParseDigits(a + b);
  }

  /** `int(str(i)) == i` for every integer `str` writes, one of at most `MaxStrDigits` digits. */
  lemma ParseIntRoundTrip(i: int)
    requires |NatToString(if i < 0 then -i else i)| <= MaxStrDigits
    ensures ParseInt(IntToString(i)) == Some(i)
  {
    var m: nat := if i < 0 then -i else i;
    var d := NatToString(m);
    ParseDigits(d);
    NatToStringRoundTrip(m);
    if i < 0 {
      assert IntToString(i) == "-" + d;
    } else {
      assert IntToString(i) == d;
    }
  }

  /** More than `MaxStrDigits` digits is the `ValueError` case, with or without a sign. */
  lemma TooManyDigitsRejected(d: string)
    requires IsDigits(d) && |d| > MaxStrDigits
    ensures ParseInt(d) == None
    ensures ParseInt("-" + d) == None
  {
    DigitsAreGroups(d);
    StripKeepsTrimmed(d, IsSpace);
    assert d[0] != '+' && d[0] != '-';
    var s := "-" + d;
    StripKeepsTrimmed(s, IsSpace);
    assert s[1..] == d;
  }
}
