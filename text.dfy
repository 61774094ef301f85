// Text helpers the naming and configuration rules rely on: std::to_string of
// integers and ASCII lower-casing as done by boost::algorithm::to_lower in the
// classic locale.

module Text {

  predicate IsDigit(c: char)
  {
    '0' <= c <= '9'
  }

  predicate AllDigits(s: string)
  {
    forall i :: 0 <= i < |s| ==> IsDigit(s[i])
  }

  function DigitChar(d: nat): (c: char)
    requires d < 10
    ensures IsDigit(c) && c as int - '0' as int == d
  {
    ('0' as int + d) as char
  }

  function DigitValue(c: char): nat
    requires IsDigit(c)
  {
    c as int - '0' as int
  }

  /**
   * The decimal form of a non-negative value, as std::to_string writes it:
   * at least one digit, only digits, no leading zero.
   */
  function NatToString(n: nat): (s: string)
    ensures |s| >= 1 && AllDigits(s)
    ensures |s| > 1 ==> s[0] != '0'
    ensures n < 10 <==> |s| == 1
    decreases n
  {
    if n < 10 then [DigitChar(n)] else NatToString(n / 10) + [DigitChar(n % 10)]
  }

  /** The value of a string of decimal digits. */
  function ParseDigits(s: string): nat
    requires AllDigits(s)
  {
    if s == [] then 0 else ParseDigits(s[..|s| - 1]) * 10 + DigitValue(s[|s| - 1])
  }

  /** Reading back the decimal form gives the value. */
  lemma {:induction false} ParseNatToString(n: nat)
    ensures ParseDigits(NatToString(n)) == n
    decreases n
  {
    var s := NatToString(n);
    if n >= 10 {
      ParseNatToString(n / 10);
      assert s[..|s| - 1] == NatToString(n / 10);
    }
  }

  /** Different values have different decimal forms. */
  lemma NatToStringInjective(m: nat, n: nat)
    requires NatToString(m) == NatToString(n)
    ensures m == n
  {
    ParseNatToString(m);
    ParseNatToString(n);
  }

  /** std::to_string of a signed value: a minus sign before the magnitude. */
  function IntToString(i: int): (s: string)
    ensures |s| >= 1
    ensures i >= 0 ==> AllDigits(s)
    ensures i < 0 <==> s[0] == '-'
  {
    if i < 0 then "-" + NatToString(-i) else NatToString(i)
  }

  /** The length of the run of digits `s` starts with. */
  function LeadingDigits(s: string): (n: nat)
    ensures n <= |s|
  {
    if s == [] || !IsDigit(s[0]) then 0 else 1 + LeadingDigits(s[1..])
  }

  /** The leading digits of a digit string followed by a non-digit are that string. */
  lemma {:induction false} LeadingDigitsBefore(d: string, sep: char, x: string)
    requires AllDigits(d) && !IsDigit(sep)
    ensures LeadingDigits(d + [sep] + x) == |d|
    decreases |d|
  {
    if d != [] {
      assert (d + [sep] + x)[1..] == d[1..] + [sep] + x;
      LeadingDigitsBefore(d[1..], sep, x);
    }
  }

  /** Two digit strings each followed by a separator that is not a digit split alike. */
  lemma DigitsBeforeSeparator(d1: string, x: string, d2: string, y: string, sep: char)
    requires AllDigits(d1) && AllDigits(d2) && !IsDigit(sep)
    requires d1 + [sep] + x == d2 + [sep] + y
    ensures d1 == d2 && x == y
  {
    var u := d1 + [sep] + x;
    LeadingDigitsBefore(d1, sep, x);
    LeadingDigitsBefore(d2, sep, y);
    assert d1 == u[..|d1|] == d2;
    assert x == u[|d1| + 1..] == y;
  }

  /** One character lower-cased in the classic locale: only `A`-`Z` change. */
  function LowerChar(c: char): char
  {
    if 'A' <= c <= 'Z' then (c as int + ('a' as int - 'A' as int)) as char else c
  }

  /** boost::algorithm::to_lower on a copy: every character lower-cased in place. */
  function ToLower(s: string): (r: string)
    ensures |r| == |s|
    ensures forall i :: 0 <= i < |s| ==> r[i] == LowerChar(s[i])
  {
    if s == [] then [] else [LowerChar(s[0])] + ToLower(s[1..])
  }

  /** Lower-casing twice is lower-casing once. */
  lemma ToLowerIdempotent(s: string)
    ensures ToLower(ToLower(s)) == ToLower(s)
  {
  }

  /** The characters that lower-case to `c`. */
  function CaseOf(c: char): set<char>
  {
    if 'a' <= c <= 'z' then {c, (c as int - ('a' as int - 'A' as int)) as char} else {c}
  }

  /** Every spelling of `w` that differs from it only in the case of its letters. */
  ghost function CaseVariants(w: string): set<string>
    decreases |w|
  {
    if w == [] then {[]}
    else set c, rest | c in CaseOf(w[0]) && rest in CaseVariants(w[1..]) :: [c] + rest
  }

  /** A character lower-cases to `d` exactly when it is one of the cases of `d`. */
  lemma LowerCharCases(c: char, d: char)
    requires LowerChar(d) == d
    ensures LowerChar(c) == d <==> c in CaseOf(d)
  {
  }

  /**
   * Comparing the lower-cased text with a lower-case word accepts exactly the
   * spellings of the word in any letter case.
   */
  lemma {:induction false} ToLowerMatches(v: string, w: string)
    requires ToLower(w) == w
    ensures ToLower(v) == w <==> v in CaseVariants(w)
    decreases |w|
  {
    if w == [] {
      assert ToLower(v) == [] <==> v == [];
    } else {
      assert LowerChar(w[0]) == w[0] && ToLower(w[1..]) == w[1..];
      if ToLower(v) == w {
        assert v != [] && ToLower(v) == [LowerChar(v[0])] + ToLower(v[1..]);
        assert LowerChar(v[0]) == w[0] && ToLower(v[1..]) == w[1..];
        LowerCharCases(v[0], w[0]);
        ToLowerMatches(v[1..], w[1..]);
        assert v == [v[0]] + v[1..];
      }
      if v in CaseVariants(w) {
        var c, rest :| c in CaseOf(w[0]) && rest in CaseVariants(w[1..]) && v == [c] + rest;
        LowerCharCases(c, w[0]);
        ToLowerMatches(rest, w[1..]);
        assert v[1..] == rest;
        assert ToLower(v) == [LowerChar(c)] + ToLower(rest);
      }
    }
  }
}
