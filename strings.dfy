/** The string operations of the C++ standard library that the engine relies on:
    per-character `tolower` in the "C" locale, `std::string::find`,
    `std::string::find_last_of` for one character, and `std::to_string` on an
    unsigned size (with its inverse, so that the decimal form is known to be
    injective). Strings are sequences of characters; only ASCII letters change
    case. */
module Strings {

  import opened Optional

  predicate IsUpper(c: char) { 'A' <= c <= 'Z' }

  predicate IsDigit(c: char) { '0' <= c <= '9' }

  /** `tolower` on one character: an ASCII capital becomes the small letter of
      the same alphabet position, everything else is left alone. */
  function ToLowerChar(c: char): (r: char)
    ensures !IsUpper(r)
    ensures !IsUpper(c) ==> r == c
    ensures IsUpper(c) ==> 'a' <= r <= 'z' && r as int - 'a' as int == c as int - 'A' as int
  {
    if IsUpper(c) then (c as int - 'A' as int + 'a' as int) as char else c
  }

  /** `toLowercase`: a copy of the string with every character passed through
      `tolower`, walked front to back like `std::transform`. */
  function ToLowercase(s: string): (r: string)
    ensures |r| == |s|
    ensures forall i :: 0 <= i < |s| ==> r[i] == ToLowerChar(s[i])
  {
    if s == [] then [] else [ToLowerChar(s[0])] + ToLowercase(s[1..])
  }

  predicate NoUpper(s: string) { forall i :: 0 <= i < |s| ==> !IsUpper(s[i]) }

  lemma ToLowercaseHasNoUpper(s: string)
    ensures NoUpper(ToLowercase(s))
  {
  }

  /** Lower-casing commutes with taking a suffix. */
  lemma ToLowercaseSuffix(s: string, k: nat)
    requires k <= |s|
    ensures ToLowercase(s[k..]) == ToLowercase(s)[k..]
  {
    var a, b := ToLowercase(s[k..]), ToLowercase(s)[k..];
    assert |a| == |b|;
    forall i | 0 <= i < |a| ensures a[i] == b[i] {
      assert s[k..][i] == s[k + i];
    }
  }

  /** Lower-casing twice is lower-casing once. */
  lemma ToLowercaseIdempotent(s: string)
    ensures ToLowercase(ToLowercase(s)) == ToLowercase(s)
  {
    var a, b := ToLowercase(ToLowercase(s)), ToLowercase(s);
    assert |a| == |b|;
    forall i | 0 <= i < |a| ensures a[i] == b[i] {
    }
  }

  /** Lower-casing a string that starts with `c` lower-cases `c` and then
      the rest. */
  lemma ToLowercaseCons(c: char, s: string)
    ensures ToLowercase([c] + s) == [ToLowerChar(c)] + ToLowercase(s)
  {
    assert ([c] + s)[1..] == s;
  }

  /** `needle` occurs in `hay` starting at position `i`. */
  predicate OccursAt(hay: string, needle: string, i: nat) {
    i + |needle| <= |hay| && hay[i..i + |needle|] == needle
  }

  /** `needle` occurs somewhere in `hay`. */
  predicate IsSubstring(needle: string, hay: string) {
    exists i: nat :: i <= |hay| && OccursAt(hay, needle, i)
  }

  lemma OccursAtShift(hay: string, needle: string, j: nat)
    requires |hay| > 0
    ensures OccursAt(hay[1..], needle, j) <==> OccursAt(hay, needle, j + 1)
  {
    if j + |needle| <= |hay[1..]| {
      assert hay[1..][j..j + |needle|] == hay[j + 1..j + 1 + |needle|];
    }
  }

  /** `hay.find(needle)`: the first position at which `needle` occurs, or
      nothing (`npos`). The empty needle occurs at position 0 of any string. */
  function Find(hay: string, needle: string): (r: Option<nat>)
    ensures r.Some? ==> OccursAt(hay, needle, r.value)
    ensures r.Some? ==> forall j: nat :: j < r.value ==> !OccursAt(hay, needle, j)
    ensures r.None? ==> forall j: nat :: !OccursAt(hay, needle, j)
    decreases |hay|
  {
    if |needle| > |hay| then None
    else if hay[..|needle|] == needle then Some(0)
    else
      var rest := Find(hay[1..], needle);
      forall j: nat | j >= 1 ensures OccursAt(hay, needle, j) <==> OccursAt(hay[1..], needle, j - 1) {
        OccursAtShift(hay, needle, j - 1);
      }
      assert !OccursAt(hay, needle, 0);
      match rest
      case None => None
      case Some(i) => Some(i + 1)
  }

  /** `find` reports a position exactly when the needle is a substring. */
  lemma FindIsSubstring(hay: string, needle: string)
    ensures Find(hay, needle).Some? <==> IsSubstring(needle, hay)
  {
    var r := Find(hay, needle);
    if r.Some? {
      assert OccursAt(hay, needle, r.value);
    }
  }

  /** `s.find_last_of(c)`: the last position holding `c`, or nothing (`npos`). */
  function LastIndexOf(s: string, c: char): (r: Option<nat>)
    ensures r.Some? ==> r.value < |s|
  {
    if s == [] then None
    else if s[|s| - 1] == c then Some(|s| - 1)
    else LastIndexOf(s[..|s| - 1], c)
  }

  /** `find_last_of` finds nothing exactly when `c` does not occur, and
      otherwise a position holding `c` with no `c` after it. */
  lemma {:induction false} LastIndexOfSpec(s: string, c: char)
    ensures var r := LastIndexOf(s, c);
      && (r.None? <==> c !in s)
      && (r.Some? ==> r.value < |s| && s[r.value] == c && c !in s[r.value + 1..])
  {
    if s != [] && s[|s| - 1] != c {
      var init := s[..|s| - 1];
      LastIndexOfSpec(init, c);
      assert s == init + [s[|s| - 1]];
      var r := LastIndexOf(init, c);
      if r.Some? {
        assert s[r.value + 1..] == init[r.value + 1..] + [s[|s| - 1]];
      }
    }
  }

  /** The position found by `LastIndexOf` is determined by any position that
      holds `c` with no `c` after it. */
  lemma LastIndexOfUnique(s: string, c: char, k: nat)
    requires k < |s| && s[k] == c && c !in s[k + 1..]
    ensures LastIndexOf(s, c) == Some(k)
  {
    LastIndexOfSpec(s, c);
    assert s[k] in s;
  }

  /** Lower-casing moves no dot: the last dot of the lower-cased string is
      the last dot of the original. */
  lemma LastDotOfLowercase(s: string)
    ensures LastIndexOf(ToLowercase(s), '.') == LastIndexOf(s, '.')
  {
    var lower := ToLowercase(s);
    LastIndexOfSpec(s, '.');
    match LastIndexOf(s, '.')
    case None =>
      LastIndexOfSpec(lower, '.');
      assert forall i :: 0 <= i < |lower| ==> lower[i] != '.';
    case Some(k) =>
      forall i | k + 1 <= i < |lower| ensures lower[i] != '.' {
        assert s[k + 1..][i - k - 1] == s[i];
      }
      LastIndexOfUnique(lower, '.', k);
  }

  /** The last character `c` of `a + [c] + b`, when `b` holds no `c`, is the
      one between `a` and `b`. */
  lemma LastIndexOfJoin(a: string, c: char, b: string)
    requires c !in b
    ensures LastIndexOf(a + [c] + b, c) == Some(|a|)
  {
    var s := a + [c] + b;
    assert s[|a| + 1..] == b;
    LastIndexOfUnique(s, c, |a|);
  }

  function DigitChar(d: nat): (c: char)
    requires d < 10
    ensures IsDigit(c)
  {
    ('0' as int + d) as char
  }

  predicate AllDigits(s: string) { forall i :: 0 <= i < |s| ==> IsDigit(s[i]) }

  /** `std::to_string` on an unsigned value: its decimal digits, most
      significant first, with no leading zero except for 0 itself. */
  function NatToDecimal(n: nat): (r: string)
    ensures |r| >= 1 && AllDigits(r)
    ensures r[0] == '0' ==> n == 0
  {
    if n < 10 then [DigitChar(n)] else NatToDecimal(n / 10) + [DigitChar(n % 10)]
  }

  /** Reads a string of decimal digits back as a number: the inverse of
      `NatToDecimal`. */
  function ParseDecimal(s: string): nat
    requires AllDigits(s)
  {
    if s == [] then 0
    else ParseDecimal(s[..|s| - 1]) * 10 + (s[|s| - 1] as int - '0' as int)
  }

  lemma {:induction false} DecimalRoundTrip(n: nat)
    ensures ParseDecimal(NatToDecimal(n)) == n
  {
    if n >= 10 {
      var s := NatToDecimal(n);
      assert s[..|s| - 1] == NatToDecimal(n / 10);
      DecimalRoundTrip(n / 10);
    }
  }

  /** Distinct numbers have distinct decimal forms. */
  lemma DecimalInjective(a: nat, b: nat)
    ensures NatToDecimal(a) == NatToDecimal(b) <==> a == b
  {
    if NatToDecimal(a) == NatToDecimal(b) {
      DecimalRoundTrip(a);
      DecimalRoundTrip(b);
    }
  }
}
