/**
 * Version strings as Semantic Versioning 2.0.0 defines them: a normal version
 * number MAJOR.MINOR.PATCH (section 2), optionally followed by a pre-release
 * (section 9) and build metadata (section 10). `Parse` stands for the call into
 * the semantic_version library that the catalog loader makes; `Format` is its
 * inverse, and the two are proved to be a bijection between well-formed
 * versions and the strings that parse.
 */
module SemVer {
  import opened Wrappers

  datatype Version = Version(
    major: nat,
    minor: nat,
    patch: nat,
    prerelease: Option<string>,  // the text after the first '-', if any
    build: Option<string>)       // the text after the first '+', if any

  predicate IsDigit(c: char) {
    '0' <= c <= '9'
  }

  predicate AllDigits(s: string) {
    forall i :: 0 <= i < |s| ==> IsDigit(s[i])
  }

  /** A non-negative integer in decimal without leading zeroes (section 2). */
  predicate IsNumeral(s: string) {
    |s| > 0 && AllDigits(s) && (s[0] == '0' ==> |s| == 1)
  }

  function DigitChar(d: nat): (c: char)
    requires d < 10
    ensures IsDigit(c) && c as int - '0' as int == d
  {
    ('0' as int + d) as char
  }

  /** The number a string of decimal digits denotes. */
  function NumeralValue(s: string): nat
    requires AllDigits(s)
  {
    if s == [] then 0 else 10 * NumeralValue(s[..|s| - 1]) + (s[|s| - 1] as int - '0' as int)
  }

  /** The decimal numeral of `n`: a well-formed numeral that denotes `n`. */
  function Numeral(n: nat): (s: string)
    ensures IsNumeral(s) && NumeralValue(s) == n
  {
    if n < 10 then
      [DigitChar(n)]
    else
      var front := Numeral(n / 10);
      var s := front + [DigitChar(n % 10)];
      assert s[..|s| - 1] == front;
      s
  }

  /** A well-formed numeral is the numeral of the number it denotes. */
  lemma {:induction false} NumeralOfValue(s: string)
    requires IsNumeral(s)
    ensures Numeral(NumeralValue(s)) == s
  {
    var n := NumeralValue(s);
    if |s| == 1 {
      assert s[..0] == [];
    } else {
      var front := s[..|s| - 1];
      assert front[0] == s[0];
      NumeralOfValue(front);
      var v := NumeralValue(front);
      assert Numeral(0) == ['0'];
      assert v != 0;
      assert n / 10 == v && n % 10 == s[|s| - 1] as int - '0' as int;
      assert s == front + [s[|s| - 1]];
    }
  }

  /** Cuts `s` at the first occurrence of `sep`: the part before it, and the part after it if there is one. */
  function SplitFirst(s: string, sep: char): (r: (string, Option<string>))
    ensures sep !in r.0
    ensures r.1.None? ==> r.0 == s
    ensures r.1.Some? ==> s == r.0 + [sep] + r.1.value
  {
    if s == [] then ([], None)
    else if s[0] == sep then ([], Some(s[1..]))
    else
      var (head, rest) := SplitFirst(s[1..], sep);
      ([s[0]] + head, rest)
  }

  lemma {:induction false} SplitFirstAt(a: string, sep: char, b: string)
    requires sep !in a
    ensures SplitFirst(a + [sep] + b, sep) == (a, Some(b))
  {
    var s := a + [sep] + b;
    if a == [] {
      assert s[1..] == b;
    } else {
      assert s[1..] == a[1..] + [sep] + b;
      SplitFirstAt(a[1..], sep, b);
      assert [a[0]] + a[1..] == a;
    }
  }

  lemma SplitFirstAbsent(a: string, sep: char)
    requires sep !in a
    ensures SplitFirst(a, sep) == (a, None)
  {
  }

  predicate IsIdentifierChar(c: char) {
    IsDigit(c) || 'a' <= c <= 'z' || 'A' <= c <= 'Z' || c == '-'
  }

  /**
   * Dot-separated identifiers over [0-9A-Za-z-], none of them empty (sections 9
   * and 10). With `strict` (pre-release, section 9) an identifier made of digits
   * only must not carry a leading zero; build metadata (section 10) allows it.
   */
  predicate ValidIdentifiers(s: string, strict: bool)
    decreases |s|
  {
    var (head, rest) := SplitFirst(s, '.');
    |head| > 0
    && (forall i :: 0 <= i < |head| ==> IsIdentifierChar(head[i]))
    && (strict && AllDigits(head) ==> IsNumeral(head))
    && (rest.Some? ==> ValidIdentifiers(rest.value, strict))
  }

  lemma {:induction false} IdentifiersHaveNoPlus(s: string, strict: bool)
    requires ValidIdentifiers(s, strict)
    ensures '+' !in s
    decreases |s|
  {
    var (head, rest) := SplitFirst(s, '.');
    assert '+' !in head by {
      forall i | 0 <= i < |head| ensures head[i] != '+' {
        assert IsIdentifierChar(head[i]);
      }
    }
    if rest.Some? {
      IdentifiersHaveNoPlus(rest.value, strict);
    }
  }

  lemma NumeralHasNoSeparator(s: string)
    requires AllDigits(s)
    ensures '.' !in s && '-' !in s && '+' !in s
  {
  }

  /** The pre-release and build parts, when present, are well formed. */
  predicate WellFormed(v: Version) {
    (v.prerelease.Some? ==> ValidIdentifiers(v.prerelease.value, true))
    && (v.build.Some? ==> ValidIdentifiers(v.build.value, false))
  }

  /** The canonical text of a version. */
  function Format(v: Version): string {
    var core := Numeral(v.major) + "." + Numeral(v.minor) + "." + Numeral(v.patch);
    var main := if v.prerelease.Some? then core + "-" + v.prerelease.value else core;
    if v.build.Some? then main + "+" + v.build.value else main
  }

  /**
   * Parses a version string; `None` is the library's ValueError. The build part
   * starts at the first '+', the pre-release at the first '-' before it, and the
   * rest must be exactly three numerals separated by dots.
   */
  function Parse(s: string): (r: Option<Version>)
    ensures r.Some? ==> WellFormed(r.value)
  {
    var (main, build) := SplitFirst(s, '+');
    var (core, pre) := SplitFirst(main, '-');
    var (x, afterMajor) := SplitFirst(core, '.');
    if afterMajor.None? then None
    else
      var (y, afterMinor) := SplitFirst(afterMajor.value, '.');
      if afterMinor.None? then None
      else
        var z := afterMinor.value;
        if IsNumeral(x) && IsNumeral(y) && IsNumeral(z)
           && (pre.Some? ==> ValidIdentifiers(pre.value, true))
           && (build.Some? ==> ValidIdentifiers(build.value, false))
        then Some(Version(NumeralValue(x), NumeralValue(y), NumeralValue(z), pre, build))
        else None
  }

  /** Every well-formed version is read back from its own text. */
  lemma ParseFormat(v: Version)
    requires WellFormed(v)
    ensures Parse(Format(v)) == Some(v)
  {
    var x, y, z := Numeral(v.major), Numeral(v.minor), Numeral(v.patch);
    NumeralHasNoSeparator(x);
    NumeralHasNoSeparator(y);
    NumeralHasNoSeparator(z);
    var rest := y + "." + z;
    var core := x + "." + y + "." + z;
    assert core == x + ['.'] + rest;
    assert '-' !in core && '+' !in core;
    var main := if v.prerelease.Some? then core + "-" + v.prerelease.value else core;
    if v.prerelease.Some? {
      IdentifiersHaveNoPlus(v.prerelease.value, true);
      SplitFirstAt(core, '-', v.prerelease.value);
    } else {
      SplitFirstAbsent(core, '-');
    }
    assert '+' !in main;
    if v.build.Some? {
      SplitFirstAt(main, '+', v.build.value);
    } else {
      SplitFirstAbsent(main, '+');
    }
    SplitFirstAt(x, '.', rest);
    SplitFirstAt(y, '.', z);
  }

  /** Every string that parses is the text of the version it parses to. */
  lemma FormatParse(s: string)
    requires Parse(s).Some?
    ensures Format(Parse(s).value) == s
  {
    var (main, build) := SplitFirst(s, '+');
    var (core, pre) := SplitFirst(main, '-');
    var (x, afterMajor) := SplitFirst(core, '.');
    var (y, afterMinor) := SplitFirst(afterMajor.value, '.');
    var z := afterMinor.value;
    NumeralOfValue(x);
    NumeralOfValue(y);
    NumeralOfValue(z);
    assert core == x + "." + y + "." + z;
  }

  /** `Parse` and `Format` are inverse: a string parses to `v` exactly when it is the text of a well-formed `v`. */
  lemma ParseIsFormatInverse(s: string, v: Version)
    ensures Parse(s) == Some(v) <==> WellFormed(v) && Format(v) == s
  {
    if Parse(s) == Some(v) {
      FormatParse(s);
    }
    if WellFormed(v) && Format(v) == s {
      ParseFormat(v);
    }
  }
}
