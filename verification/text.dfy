/**
 * Text operations the pipelines rely on: case-insensitive regular-expression search for
 * alternations of plain words with `.` wildcards (pandas `str.contains(..., case=False,
 * regex=True)`), character removal (`str.replace`), decimal formatting and parsing (`f'h{w}'`,
 * `astype(int)`, `f'{x:02d}'`), and Python's `float()` on text.
 */
module Text {
  import opened Wrappers

  // ---- Case folding and searching ----

  /** Case folding for the ASCII letters. */
  function LowerChar(c: char): char
  {
    if 'A' <= c <= 'Z' then (c as int + 32) as char else c
  }

  function Lower(s: string): (r: string)
    ensures |r| == |s|
    ensures forall i :: 0 <= i < |s| ==> r[i] == LowerChar(s[i])
  {
    seq(|s|, i requires 0 <= i < |s| => LowerChar(s[i]))
  }

  /** One pattern character against one text character: `.` is any character but a newline. */
  predicate CharMatches(p: char, c: char)
  {
    if p == '.' then c != '\n' else LowerChar(p) == LowerChar(c)
  }

  /** The pattern matches the text starting at position `i`. */
  predicate MatchesAt(text: string, i: nat, pat: string)
  {
    i + |pat| <= |text| && forall k :: 0 <= k < |pat| ==> CharMatches(pat[k], text[i + k])
  }

  function SearchFrom(text: string, pat: string, i: nat): bool
    decreases |text| - i
  {
    if i + |pat| > |text| then false
    else MatchesAt(text, i, pat) || SearchFrom(text, pat, i + 1)
  }

  /** `re.search(pat, text, re.IGNORECASE)` for a pattern without metacharacters other than `.`. */
  predicate Search(text: string, pat: string)
  {
    SearchFrom(text, pat, 0)
  }

  /** `re.search('|'.join(pats), text, re.IGNORECASE)`: some alternative matches somewhere. */
  predicate SearchAny(text: string, pats: seq<string>)
  {
    if pats == [] then false else Search(text, pats[0]) || SearchAny(text, pats[1..])
  }

  lemma {:induction false} SearchFromSpec(text: string, pat: string, i: nat)
    ensures SearchFrom(text, pat, i) <==> exists j :: i <= j && MatchesAt(text, j, pat)
    decreases |text| - i
  {
    if i + |pat| <= |text| {
      SearchFromSpec(text, pat, i + 1);
      if !MatchesAt(text, i, pat) {
        forall j | i <= j && MatchesAt(text, j, pat) ensures i + 1 <= j {
        }
      }
    }
  }

  /** The search succeeds exactly when the pattern matches at some position of the text. */
  lemma SearchSpec(text: string, pat: string)
    ensures Search(text, pat) <==> exists j: nat :: MatchesAt(text, j, pat)
  {
    SearchFromSpec(text, pat, 0);
  }

  /** An alternation matches exactly when one of its alternatives does. */
  lemma {:induction false} SearchAnySpec(text: string, pats: seq<string>)
    ensures SearchAny(text, pats) <==> exists k :: 0 <= k < |pats| && Search(text, pats[k])
  {
    if pats != [] {
      SearchAnySpec(text, pats[1..]);
      if Search(text, pats[0]) {
        assert Search(text, pats[0]);
      } else {
        forall k | 0 <= k < |pats| && Search(text, pats[k]) ensures 1 <= k {
        }
        if exists k :: 0 <= k < |pats| && Search(text, pats[k]) {
          var k :| 0 <= k < |pats| && Search(text, pats[k]);
          assert pats[1..][k - 1] == pats[k];
        }
      }
    }
  }

  /** The lower-cased `pat` occurs in the lower-cased `text` at position `j`. */
  predicate OccursAt(text: string, j: nat, pat: string)
  {
    j + |pat| <= |text| && Lower(text)[j..j + |pat|] == Lower(pat)
  }

  /**
   * Without a `.`, the pattern is a plain word and the search is a case-insensitive
   * substring test: the lower-cased word occurs in the lower-cased text.
   */
  lemma PlainSearchIsSubstring(text: string, pat: string)
    requires '.' !in pat
    ensures Search(text, pat) <==> exists j: nat :: OccursAt(text, j, pat)
  {
    SearchSpec(text, pat);
    forall j: nat ensures MatchesAt(text, j, pat) <==> OccursAt(text, j, pat)
    {
      if OccursAt(text, j, pat) {
        forall k | 0 <= k < |pat| ensures CharMatches(pat[k], text[j + k]) {
          assert Lower(text)[j..j + |pat|][k] == Lower(pat)[k];
        }
      }
      if MatchesAt(text, j, pat) {
        assert Lower(text)[j..j + |pat|] == Lower(pat);
      }
    }
  }

  // ---- Character-level edits ----

  /** `s.replace(c, '')`. */
  function RemoveAll(s: string, c: char): (r: string)
    ensures c !in r
    ensures |r| <= |s|
    ensures forall x :: x in r ==> x in s
  {
    if s == [] then []
    else (if s[0] == c then [] else [s[0]]) + RemoveAll(s[1..], c)
  }

  lemma {:induction false} RemoveAllAbsent(s: string, c: char)
    requires c !in s
    ensures RemoveAll(s, c) == s
  {
    if s != [] {
      RemoveAllAbsent(s[1..], c);
      assert s == [s[0]] + s[1..];
    }
  }

  /** `sub` occurs in `s` at position `j`, case and all. */
  predicate SubstringAt(s: string, j: nat, sub: string)
  {
    j + |sub| <= |s| && s[j..j + |sub|] == sub
  }

  function SubstringFrom(s: string, sub: string, j: nat): bool
    decreases |s| - j
  {
    if j + |sub| > |s| then false else SubstringAt(s, j, sub) || SubstringFrom(s, sub, j + 1)
  }

  /** Python's case-sensitive `sub in s`. */
  predicate HasSubstring(s: string, sub: string)
  {
    SubstringFrom(s, sub, 0)
  }

  lemma {:induction false} SubstringFromSpec(s: string, sub: string, j: nat)
    ensures SubstringFrom(s, sub, j) <==> exists i: nat :: j <= i && SubstringAt(s, i, sub)
    decreases |s| - j
  {
    if j + |sub| <= |s| {
      SubstringFromSpec(s, sub, j + 1);
      if !SubstringAt(s, j, sub) {
        forall i: nat | j <= i && SubstringAt(s, i, sub) ensures j + 1 <= i {
        }
      }
    }
  }

  /** The search finds `sub` exactly when it occurs at some position. */
  lemma HasSubstringSpec(s: string, sub: string)
    ensures HasSubstring(s, sub) <==> exists i: nat :: SubstringAt(s, i, sub)
  {
    SubstringFromSpec(s, sub, 0);
  }

  predicate StartsWith(s: string, prefix: string)
  {
    |prefix| <= |s| && s[..|prefix|] == prefix
  }

  // ---- Decimal integers ----

  predicate IsDigit(c: char) { '0' <= c <= '9' }

  predicate AllDigits(s: string) { forall i :: 0 <= i < |s| ==> IsDigit(s[i]) }

  function DigitValue(c: char): nat
    requires IsDigit(c)
  {
    (c as int - '0' as int) as nat
  }

  /** The value of a string of decimal digits, most significant first. */
  function DigitsValue(s: string): nat
    requires AllDigits(s)
  {
    if s == [] then 0 else DigitsValue(s[..|s| - 1]) * 10 + DigitValue(s[|s| - 1])
  }

  function DigitChar(d: nat): (c: char)
    requires d < 10
    ensures IsDigit(c) && DigitValue(c) == d
  {
    ('0' as int + d) as char
  }

  /** `str(n)` for a natural number. */
  function NatToString(n: nat): (s: string)
    ensures |s| > 0 && AllDigits(s)
    ensures n < 10 ==> |s| == 1
    ensures n >= 10 ==> |s| >= 2
  {
    if n < 10 then [DigitChar(n)] else NatToString(n / 10) + [DigitChar(n % 10)]
  }

  /** Decimal text read back as a number, as `int()` does on a plain string of digits. */
  function ParseNat(s: string): (r: Option<nat>)
    ensures r.Some? <==> |s| > 0 && AllDigits(s)
  {
    if |s| > 0 && AllDigits(s) then Some(DigitsValue(s)) else None
  }

  /** Reading back what was written gives the number: `int(str(n)) == n`. */
  lemma {:induction false} ParseNatToString(n: nat)
    ensures ParseNat(NatToString(n)) == Some(n)
  {
    var s := NatToString(n);
    if n >= 10 {
      ParseNatToString(n / 10);
      assert s[..|s| - 1] == NatToString(n / 10);
      assert DigitsValue(s) == DigitsValue(NatToString(n / 10)) * 10 + n % 10;
    }
  }

  /** `f'{n:02d}'` for n < 100: two digits, a leading zero below ten. */
  function TwoDigits(n: nat): (s: string)
    requires n < 100
    ensures |s| == 2 && AllDigits(s) && DigitsValue(s) == n
  {
    var s := [DigitChar(n / 10), DigitChar(n % 10)];
    assert s[..1] == [DigitChar(n / 10)];
    assert s[..1][..0] == [];
    assert DigitsValue(s[..1]) == n / 10;
    s
  }

  // ---- Python float() ----

  /** The values `float()` can produce. */
  datatype PyFloat = Finite(r: real) | Infinite(negative: bool) | NaN
  {
    /** `x >= 0`; a NaN compares false. */
    predicate NonNegative()
    {
      match this
      case Finite(r) => r >= 0.0
      case Infinite(negative) => !negative
      case NaN => false
    }
  }

  predicate IsSpace(c: char)
  {
    c == ' ' || c == '\t' || c == '\n' || c == '\r' || c == '\U{B}' || c == '\U{C}'
  }

  function StripStart(s: string): (r: string)
    ensures |r| <= |s|
  {
    if s != [] && IsSpace(s[0]) then StripStart(s[1..]) else s
  }

  function StripEnd(s: string): (r: string)
    ensures |r| <= |s|
  {
    if s != [] && IsSpace(s[|s| - 1]) then StripEnd(s[..|s| - 1]) else s
  }

  /** `s.strip()` for ASCII white space. */
  function Strip(s: string): string
  {
    StripEnd(StripStart(s))
  }

  lemma StripNoSpace(s: string)
    requires forall i :: 0 <= i < |s| ==> !IsSpace(s[i])
    ensures Strip(s) == s
  {
  }

  function Pow10(k: nat): (p: nat)
    ensures p >= 1
  {
    if k == 0 then 1 else 10 * Pow10(k - 1)
  }

  function IndexOfChar(s: string, c: char): (r: Option<nat>)
    ensures r.Some? ==> r.value < |s| && s[r.value] == c && c !in s[..r.value]
    ensures r.None? ==> c !in s
  {
    if s == [] then None
    else if s[0] == c then Some(0)
    else
      match IndexOfChar(s[1..], c)
      case None => None
      case Some(k) =>
        assert s[..k + 1] == [s[0]] + s[1..][..k];
        Some(k + 1)
  }

  /** `digits`, `digits.`, `digits.digits` or `.digits`, read as a real. */
  function ParseDecimal(s: string): Option<real>
  {
    match IndexOfChar(s, '.')
    case None =>
      if |s| > 0 && AllDigits(s) then Some(DigitsValue(s) as real) else None
    case Some(k) =>
      var whole, frac := s[..k], s[k + 1..];
      if (|whole| > 0 || |frac| > 0) && AllDigits(whole) && AllDigits(frac)
      then Some(DigitsValue(whole) as real + DigitsValue(frac) as real / Pow10(|frac|) as real)
      else None
  }

  function ParseUnsigned(s: string): Option<PyFloat>
  {
    var l := Lower(s);
    if l == "nan" then Some(NaN)
    else if l == "inf" || l == "infinity" then Some(Infinite(false))
    else match ParseDecimal(s)
      case Some(r) => Some(Finite(r))
      case None => None
  }

  function Negate(x: PyFloat): PyFloat
  {
    match x
    case Finite(r) => Finite(-r)
    case Infinite(negative) => Infinite(!negative)
    case NaN => NaN
  }

  /**
   * `float(s)`: surrounding white space, an optional sign, then a decimal number,
   * `nan`, `inf` or `infinity` in any case. `None` stands for the ValueError.
   */
  function ParseFloat(s: string): Option<PyFloat>
  {
    var t := Strip(s);
    if |t| > 0 && t[0] == '-' then
      match ParseUnsigned(t[1..])
      case Some(x) => Some(Negate(x))
      case None => None
    else if |t| > 0 && t[0] == '+' then ParseUnsigned(t[1..])
    else ParseUnsigned(t)
  }

  lemma DigitsNoSpace(s: string)
    requires AllDigits(s)
    ensures forall i :: 0 <= i < |s| ==> !IsSpace(s[i]) && s[i] != '.' && s[i] != '-' && s[i] != '+'
  {
  }

  lemma ParseUnsignedDigits(s: string)
    requires |s| > 0 && AllDigits(s)
    ensures ParseUnsigned(s) == Some(Finite(DigitsValue(s) as real))
  {
    assert IndexOfChar(s, '.') == None;
    assert Lower(s) != "nan" && Lower(s) != "inf" && Lower(s) != "infinity" by {
      assert IsDigit(Lower(s)[0]);
    }
  }

  /** A plain string of digits reads as its decimal value. */
  lemma ParseFloatDigits(s: string)
    requires |s| > 0 && AllDigits(s)
    ensures ParseFloat(s) == Some(Finite(DigitsValue(s) as real))
  {
    StripNoSpace(s);
    ParseUnsignedDigits(s);
  }

  lemma ParseFloatMinus(t: string)
    requires |t| > 0 && t[0] == '-' && Strip(t) == t
    ensures ParseFloat(t) == match ParseUnsigned(t[1..]) case Some(x) => Some(Negate(x)) case None => None
  {
  }

  /** A minus sign before digits reads as the negated value. */
  lemma ParseFloatNegativeDigits(s: string)
    requires |s| > 0 && AllDigits(s)
    ensures ParseFloat("-" + s) == Some(Finite(-(DigitsValue(s) as real)))
  {
    var t := "-" + s;
    forall i | 0 <= i < |t| ensures !IsSpace(t[i]) {
      if i > 0 {
        assert t[i] == s[i - 1];
      }
    }
    StripNoSpace(t);
    assert t[1..] == s;
    ParseUnsignedDigits(s);
    ParseFloatMinus(t);
  }
}
