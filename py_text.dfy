/** The Python text built-ins that `start_resizing` leans on: `str.isspace`,
    `str.strip()` with no argument, and `int(s)` on a string in base 10. */
module PyText {
  import opened Wrappers

  /** The characters for which Python's `str.isspace` is true; `str.strip()`
      removes exactly these. */
  predicate IsSpace(c: char) {
    var n := c as int;
    (9 <= n <= 13) || (28 <= n <= 32) || n == 0x85 || n == 0xA0 || n == 0x1680
    || (0x2000 <= n <= 0x200A) || n == 0x2028 || n == 0x2029 || n == 0x202F
    || n == 0x205F || n == 0x3000
  }

  /** The whitespace `int()` skips around a number: the ASCII characters
      space, tab, line feed, vertical tab, form feed and carriage return, and
      every non-ASCII `str.isspace` character (CPython turns those into
      spaces before parsing). The ASCII separators U+001C to U+001F are
      `str.isspace` characters that `int()` does not skip. */
  predicate IsIntSpace(c: char) {
    c == ' ' || ('\t' <= c <= '\r') || (c as int >= 0x80 && IsSpace(c))
  }

  predicate IsDigit(c: char) {
    '0' <= c <= '9'
  }

  function DigitValue(c: char): (d: nat)
    requires IsDigit(c)
    ensures d < 10
  {
    c as int - '0' as int
  }

  /** Every character of `s` is one of `space`. */
  predicate AllOf(s: string, space: char -> bool) {
    forall i :: 0 <= i < |s| ==> space(s[i])
  }

  /** How many characters of `space` `s` starts with. */
  function LeadingRun(s: string, space: char -> bool): (n: nat)
    ensures n <= |s| && AllOf(s[..n], space)
    ensures n < |s| ==> !space(s[n])
  {
    if s != [] && space(s[0]) then
      var n := 1 + LeadingRun(s[1..], space);
      assert s[..n] == [s[0]] + s[1..][..n - 1];
      n
    else 0
  }

  /** How many characters of `space` `s` ends with. */
  function TrailingRun(s: string, space: char -> bool): (n: nat)
    ensures n <= |s| && AllOf(s[|s| - n..], space)
    ensures n < |s| ==> !space(s[|s| - n - 1])
  {
    if s != [] && space(s[|s| - 1]) then
      var n := 1 + TrailingRun(s[..|s| - 1], space);
      TrailingRunGrows(s, space, n - 1);
      n
    else 0
  }

  lemma TrailingRunGrows(s: string, space: char -> bool, k: nat)
    requires s != [] && space(s[|s| - 1])
    requires k < |s| && AllOf(s[..|s| - 1][|s| - 1 - k..], space)
    ensures AllOf(s[|s| - k - 1..], space)
  {
    var t, u := s[..|s| - 1], s[|s| - k - 1..];
    forall i | 0 <= i < |u| ensures space(u[i]) {
      if i < k {
        assert u[i] == t[|t| - k..][i];
      }
    }
  }

  /** `s` with the characters of `space` removed at both ends, as
      `str.strip()` does with its set of whitespace; it is empty exactly when
      `s` consists of them. */
  function Trim(s: string, space: char -> bool): (r: string)
    ensures r != [] ==> !space(r[0]) && !space(r[|r| - 1])
    ensures r == [] <==> AllOf(s, space)
  {
    var lead := LeadingRun(s, space);
    if lead == |s| then
      assert s[..lead] == s;
      []
    else
      s[lead..|s| - TrailingRun(s, space)]
  }

  /** Whatever `space` characters surround a text that starts and ends with
      another character, trimming gives back exactly that text. */
  lemma TrimExact(pre: string, m: string, post: string, space: char -> bool)
    requires AllOf(pre, space) && AllOf(post, space)
    requires m != [] && !space(m[0]) && !space(m[|m| - 1])
    ensures Trim(pre + m + post, space) == m
  {
    var s := pre + m + post;
    assert s == pre + (m + post);
    assert (m + post)[0] == m[0];
    LeadingRunOf(pre, m + post, space);
    assert (pre + m)[|pre + m| - 1] == m[|m| - 1];
    TrailingRunOf(pre + m, post, space);
    assert s[|pre|..|s| - |post|] == m;
  }

  /** The leading run of `pre + rest` is `pre` when `rest` starts outside `space`. */
  lemma LeadingRunOf(pre: string, rest: string, space: char -> bool)
    requires AllOf(pre, space) && rest != [] && !space(rest[0])
    ensures LeadingRun(pre + rest, space) == |pre|
  {
    var s := pre + rest;
    assert s[|pre|] == rest[0];
  }

  /** The trailing run of `rest + post` is `post` when `rest` ends outside `space`. */
  lemma TrailingRunOf(rest: string, post: string, space: char -> bool)
    requires AllOf(post, space) && rest != [] && !space(rest[|rest| - 1])
    ensures TrailingRun(rest + post, space) == |post|
  {
    var s := rest + post;
    assert s[|rest| - 1] == rest[|rest| - 1];
  }

  /** The test `not s.strip()` that guards every text field. */
  predicate IsBlank(s: string) {
    Trim(s, IsSpace) == []
  }

  predicate DigitsOrUnderscores(s: string) {
    forall i :: 0 <= i < |s| ==> IsDigit(s[i]) || s[i] == '_'
  }

  /** The body of a base-10 literal as `int()` accepts it: ASCII digits, where a
      single underscore may stand between two digits. */
  predicate WellFormedDigits(s: string) {
    |s| > 0 && DigitsOrUnderscores(s) &&
    forall i :: 0 <= i < |s| && s[i] == '_' ==> 0 < i < |s| - 1 && IsDigit(s[i - 1]) && IsDigit(s[i + 1])
  }

  /** The value of a run of digits, underscores skipped. */
  function DigitsValue(s: string): nat
    requires DigitsOrUnderscores(s)
  {
    if s == [] then 0
    else if s[|s| - 1] == '_' then DigitsValue(s[..|s| - 1])
    else DigitsValue(s[..|s| - 1]) * 10 + DigitValue(s[|s| - 1])
  }

  /** How many characters of `s` are not underscores. */
  function DigitCount(s: string): nat {
    if s == [] then 0
    else DigitCount(s[..|s| - 1]) + (if s[|s| - 1] == '_' then 0 else 1)
  }

  /** The most digits `int()` converts from a decimal string: CPython's
      default integer string conversion length limit (`sys.int_info.
      default_max_str_digits`, Python 3.11 on). Longer numerals raise
      `ValueError`. */
  const MaxStrDigits: nat := 4300

  /** A trimmed literal: an optional sign, then at most `MaxStrDigits` digits. */
  function ParseLiteral(t: string): Option<int> {
    if t == [] then None
    else
      var sign := if t[0] == '-' then -1 else 1;
      var body := if t[0] == '-' || t[0] == '+' then t[1..] else t;
      if WellFormedDigits(body) && DigitCount(body) <= MaxStrDigits
      then Some(sign * DigitsValue(body)) else None
  }

  /** Python's `int(s)` for a string: `None` where Python raises `ValueError`.
      Only `IsIntSpace` characters are skipped around the literal, and a text
      that `int()` accepts is never blank. */
  function ParseInt(s: string): (r: Option<int>)
    ensures r.Some? ==> !IsBlank(s)
  {
    ParsedTextNotBlank(s);
    ParseLiteral(Trim(s, IsIntSpace))
  }

  /** A literal `int()` accepts ends in a digit. */
  lemma LiteralEndsInDigit(t: string)
    requires ParseLiteral(t).Some?
    ensures t != [] && IsDigit(t[|t| - 1])
  {
    var body := if t[0] == '-' || t[0] == '+' then t[1..] else t;
    assert body[|body| - 1] == t[|t| - 1];
  }

  lemma ParsedTextNotBlank(s: string)
    ensures ParseLiteral(Trim(s, IsIntSpace)).Some? ==> !IsBlank(s)
  {
    var t := Trim(s, IsIntSpace);
    if ParseLiteral(t).Some? {
      LiteralEndsInDigit(t);
      var k := TrimLastIndex(s, IsIntSpace);
      DigitIsNotBlank(s, k);
    }
  }

  /** Where the last character of a non-empty trim sits in the text. */
  lemma TrimLastIndex(s: string, space: char -> bool) returns (k: nat)
    requires Trim(s, space) != []
    ensures k < |s| && s[k] == Trim(s, space)[|Trim(s, space)| - 1]
  {
    var a, m, c := TrimParts(s, space);
    k := |a| + |m| - 1;
    assert s[k] == m[|m| - 1];
  }

  /** A text holding a digit is not blank. */
  lemma DigitIsNotBlank(s: string, k: nat)
    requires k < |s| && IsDigit(s[k])
    ensures !IsBlank(s)
  {
    assert !IsSpace(s[k]);
  }

  /** The information separators U+001C to U+001F are whitespace to
      `str.strip()` but not to `int()`: next to a number they make it raise. */
  lemma SeparatorsNotSkipped(c: char, s: string)
    requires 0x1C <= c as int <= 0x1F
    ensures IsSpace(c)
    ensures ParseInt([c] + s) == None && ParseInt(s + [c]) == None
  {
    SeparatorFirst(c, s);
    SeparatorLast(c, s);
  }

  lemma SeparatorFirst(c: char, s: string)
    requires 0x1C <= c as int <= 0x1F
    ensures ParseInt([c] + s) == None
  {
    var w := [c] + s;
    assert w[0] == c;
    var a, m, z := TrimParts(w, IsIntSpace);
    assert m[0] == c;
    assert !WellFormedDigits(m) by {
      assert !(IsDigit(m[0]) || m[0] == '_');
    }
    assert ParseInt(w) == ParseLiteral(m);
  }

  lemma SeparatorLast(c: char, s: string)
    requires 0x1C <= c as int <= 0x1F
    ensures ParseInt(s + [c]) == None
  {
    var w := s + [c];
    assert w[|w| - 1] == c;
    var a, m, z := TrimParts(w, IsIntSpace);
    assert m[|m| - 1] == w[|a| + |m| - 1];
    if ParseLiteral(m).Some? {
      LiteralEndsInDigit(m);
    }
  }

  /** Decimal rendering of a natural number, most significant digit first. */
  function ShowNat(n: nat): (s: string)
    ensures |s| > 0 && forall i :: 0 <= i < |s| ==> IsDigit(s[i])
  {
    var d := ['0' + (n % 10) as char];
    if n < 10 then d else ShowNat(n / 10) + d
  }

  function Abs(n: int): nat {
    if n < 0 then -n else n
  }

  /** Decimal rendering of an integer, with `-` for negatives, as `str(n)` gives it. */
  function ShowInt(n: int): string {
    if n < 0 then "-" + ShowNat(-n) else ShowNat(n)
  }

  lemma {:induction false} ShowNatValue(n: nat)
    ensures DigitsValue(ShowNat(n)) == n
    ensures DigitCount(ShowNat(n)) == |ShowNat(n)|
  {
    var s := ShowNat(n);
    if n >= 10 {
      ShowNatValue(n / 10);
      assert s[..|s| - 1] == ShowNat(n / 10);
    }
  }

  /** `int(str(n)) == n` for every number of at most `MaxStrDigits` digits;
      a longer rendering is refused. */
  lemma ParseShowRoundTrip(n: int)
    ensures ParseInt(ShowInt(n)) == if |ShowNat(Abs(n))| <= MaxStrDigits then Some(n) else None
  {
    var s := ShowInt(n);
    ShowIntHasNoSpace(n);
    TrimExact([], s, [], IsIntSpace);
    assert [] + s + [] == s;
    LiteralShowRoundTrip(n);
  }

  lemma ShowIntHasNoSpace(n: int)
    ensures |ShowInt(n)| > 0
    ensures !IsIntSpace(ShowInt(n)[0]) && !IsIntSpace(ShowInt(n)[|ShowInt(n)| - 1])
  {
    var d := ShowNat(Abs(n));
    assert IsDigit(d[|d| - 1]);
    assert IsDigit(d[0]);
  }

  lemma LiteralShowRoundTrip(n: int)
    ensures ParseLiteral(ShowInt(n)) == if |ShowNat(Abs(n))| <= MaxStrDigits then Some(n) else None
  {
    if n < 0 {
      NegativeLiteral(-n);
    } else {
      NaturalLiteral(n);
    }
  }

  lemma ShowNatWellFormed(n: nat)
    ensures WellFormedDigits(ShowNat(n)) && DigitsValue(ShowNat(n)) == n
    ensures DigitCount(ShowNat(n)) == |ShowNat(n)|
  {
    ShowNatValue(n);
  }

  lemma NaturalLiteral(n: nat)
    ensures ParseLiteral(ShowNat(n)) == if |ShowNat(n)| <= MaxStrDigits then Some(n) else None
  {
    var d := ShowNat(n);
    ShowNatWellFormed(n);
    assert IsDigit(d[0]);
  }

  lemma NegativeLiteral(m: nat)
    requires m > 0
    ensures ParseLiteral("-" + ShowNat(m)) == if |ShowNat(m)| <= MaxStrDigits then Some(-(m as int)) else None
  {
    var s := "-" + ShowNat(m);
    ShowNatWellFormed(m);
    assert s[1..] == ShowNat(m);
  }

  /** `int()` ignores the whitespace it skips around the number. */
  lemma ParseIgnoresSurroundingSpace(pre: string, s: string, post: string)
    requires AllOf(pre, IsIntSpace) && AllOf(post, IsIntSpace)
    ensures ParseInt(pre + s + post) == ParseInt(s)
  {
    TrimIgnoresSurrounding(pre, s, post, IsIntSpace);
  }

  /** Trimming ignores characters of `space` put around the text. */
  lemma TrimIgnoresSurrounding(pre: string, s: string, post: string, space: char -> bool)
    requires AllOf(pre, space) && AllOf(post, space)
    ensures Trim(pre + s + post, space) == Trim(s, space)
  {
    if AllOf(s, space) {
      AllOfConcat(pre, s, post, space);
    } else {
      TrimAroundText(pre, s, post, space);
    }
  }

  lemma TrimAroundText(pre: string, s: string, post: string, space: char -> bool)
    requires AllOf(pre, space) && AllOf(post, space) && !AllOf(s, space)
    ensures Trim(pre + s + post, space) == Trim(s, space)
  {
    var a, m, c := TrimParts(s, space);
    AllOfAppend(pre, a, space);
    AllOfAppend(c, post, space);
    Regroup(pre, a, m, c, post);
    TrimExact(pre + a, m, c + post, space);
  }

  /** A text not made of `space` alone is its trim with `space` around it. */
  lemma TrimParts(s: string, space: char -> bool) returns (a: string, m: string, c: string)
    requires !AllOf(s, space)
    ensures s == a + m + c && m == Trim(s, space)
    ensures AllOf(a, space) && AllOf(c, space)
    ensures m != [] && !space(m[0]) && !space(m[|m| - 1])
  {
    var lead := LeadingRun(s, space);
    var trail := TrailingRun(s, space);
    LeadBeforeTrail(s, space);
    a, m, c := s[..lead], s[lead..|s| - trail], s[|s| - trail..];
    assert m == Trim(s, space);
    assert m[0] == s[lead] && m[|m| - 1] == s[|s| - trail - 1];
    SplitThree(s, lead, |s| - trail);
  }

  /** In a text not made of `space` alone, the leading run ends before the
      trailing run starts. */
  lemma LeadBeforeTrail(s: string, space: char -> bool)
    requires !AllOf(s, space)
    ensures LeadingRun(s, space) < |s| - TrailingRun(s, space)
  {
  }

  lemma SplitThree(s: string, i: nat, j: nat)
    requires i <= j <= |s|
    ensures s == s[..i] + s[i..j] + s[j..]
  {
    assert s[..j] == s[..i] + s[i..j];
    assert s == s[..j] + s[j..];
  }

  lemma Regroup(p: string, x: string, m: string, y: string, q: string)
    ensures p + (x + m + y) + q == (p + x) + m + (y + q)
  {
    var l, r := p + (x + m + y) + q, (p + x) + m + (y + q);
    assert |l| == |r|;
    forall k | 0 <= k < |l| ensures l[k] == r[k] {}
  }

  lemma AllOfAppend(a: string, b: string, space: char -> bool)
    requires AllOf(a, space) && AllOf(b, space)
    ensures AllOf(a + b, space)
  {
    var w := a + b;
    forall k | 0 <= k < |w| ensures space(w[k]) {
      if k < |a| { assert w[k] == a[k]; }
      else { assert w[k] == b[k - |a|]; }
    }
  }

  lemma AllOfConcat(a: string, b: string, c: string, space: char -> bool)
    requires AllOf(a, space) && AllOf(b, space) && AllOf(c, space)
    ensures AllOf(a + b + c, space)
  {
    var w := a + b + c;
    forall k | 0 <= k < |w| ensures space(w[k]) {
      if k < |a| { assert w[k] == a[k]; }
      else if k < |a| + |b| { assert w[k] == b[k - |a|]; }
      else { assert w[k] == c[k - |a| - |b|]; }
    }
  }
}
