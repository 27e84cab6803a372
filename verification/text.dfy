/** Character classes, decimal rendering and line splitting, as the C and
    Python standard libraries define them for ASCII text. */
module Text {
  import opened Wrappers

  /** std::isspace in the "C" locale. */
  predicate IsSpace(c: char)
  {
    c == ' ' || c == '\t' || c == '\n' || c == '\U{000B}' || c == '\U{000C}' || c == '\r'
  }

  predicate IsDigit(c: char)
  {
    '0' <= c <= '9'
  }

  predicate AllDigits(s: string)
  {
    forall i :: 0 <= i < |s| ==> IsDigit(s[i])
  }

  function DigitValue(c: char): (d: nat)
    requires IsDigit(c)
    ensures d < 10
  {
    (c as int) - ('0' as int)
  }

  function DigitChar(d: nat): (c: char)
    requires d < 10
    ensures IsDigit(c) && DigitValue(c) == d
  {
    (('0' as int) + d) as char
  }

  /** The number a run of decimal digits denotes, most significant first. */
  function DigitsValue(s: string): nat
    requires AllDigits(s)
  {
    if |s| == 0 then 0 else DigitsValue(s[..|s| - 1]) * 10 + DigitValue(s[|s| - 1])
  }

  /** Decimal rendering without leading zeros (std::to_string, Python str). */
  function NatToString(n: nat): (s: string)
    ensures 1 <= |s|
    ensures AllDigits(s)
    ensures n > 0 ==> s[0] != '0'
    decreases n
  {
    if n < 10 then [DigitChar(n)] else NatToString(n / 10) + [DigitChar(n % 10)]
  }

  /** Decimal rendering of a signed integer, with a leading '-' when negative. */
  function IntToString(i: int): (s: string)
    ensures 1 <= |s|
    ensures i >= 0 <==> s[0] != '-'
    ensures forall k :: 0 <= k < |s| ==> IsDigit(s[k]) || (k == 0 && s[k] == '-')
  {
    if i < 0 then "-" + NatToString(-i) else NatToString(i)
  }

  /** Reading back what NatToString wrote gives the number again. */
  lemma {:induction false} NatToStringValue(n: nat)
    ensures DigitsValue(NatToString(n)) == n
    decreases n
  {
    if n >= 10 {
      NatToStringValue(n / 10);
      var s := NatToString(n);
      assert s[..|s| - 1] == NatToString(n / 10);
    }
  }

  /** Different numbers are rendered differently. */
  lemma NatToStringInjective(a: nat, b: nat)
    requires NatToString(a) == NatToString(b)
    ensures a == b
  {
    NatToStringValue(a);
    NatToStringValue(b);
  }

  lemma IntToStringInjective(a: int, b: int)
    requires IntToString(a) == IntToString(b)
    ensures a == b
  {
    if a < 0 && b < 0 {
      assert IntToString(a)[1..] == NatToString(-a);
      assert IntToString(b)[1..] == NatToString(-b);
      NatToStringInjective(-a, -b);
    } else if a >= 0 && b >= 0 {
      NatToStringInjective(a, b);
    }
  }

  /** Number of leading whitespace characters. */
  function LeadingSpaces(s: string): (n: nat)
    ensures n <= |s|
    ensures forall i :: 0 <= i < n ==> IsSpace(s[i])
    ensures n < |s| ==> !IsSpace(s[n])
  {
    if |s| == 0 || !IsSpace(s[0]) then 0 else 1 + LeadingSpaces(s[1..])
  }

  /** Number of leading decimal digits. */
  function LeadingDigits(s: string): (n: nat)
    ensures n <= |s|
    ensures AllDigits(s[..n])
    ensures n < |s| ==> !IsDigit(s[n])
  {
    if |s| == 0 || !IsDigit(s[0]) then 0
    else
      var k := LeadingDigits(s[1..]);
      assert s[..1 + k] == [s[0]] + s[1..][..k];
      1 + k
  }

  lemma LeadingDigitsOfDigits(s: string)
    requires AllDigits(s)
    ensures LeadingDigits(s) == |s|
  {
    if |s| > 0 {
      LeadingDigitsOfDigits(s[1..]);
    }
  }

  /** A run of digits followed by a non-digit is scanned up to the non-digit. */
  lemma {:induction false} LeadingDigitsOfNumeral(p: string, rest: string)
    requires AllDigits(p)
    requires |rest| > 0 && !IsDigit(rest[0])
    ensures LeadingDigits(p + rest) == |p|
    decreases |p|
  {
    if |p| > 0 {
      assert (p + rest)[1..] == p[1..] + rest;
      LeadingDigitsOfNumeral(p[1..], rest);
    } else {
      assert p + rest == rest;
    }
  }

  /** A numeral followed by a separator can be split off uniquely. */
  lemma NumeralPrefix(p: string, q: string, u: string, v: string, sep: char)
    requires AllDigits(p) && AllDigits(q) && !IsDigit(sep)
    requires p + [sep] + u == q + [sep] + v
    ensures p == q && u == v
  {
    var s := p + [sep] + u;
    assert s == p + ([sep] + u);
    assert s == q + ([sep] + v);
    LeadingDigitsOfNumeral(p, [sep] + u);
    LeadingDigitsOfNumeral(q, [sep] + v);
    assert p == s[..|p|];
    assert q == s[..|q|];
    assert u == s[|p| + 1..];
    assert v == s[|q| + 1..];
  }

  /** std::getline with the default '\n' delimiter: None when the stream is
      already at its end, otherwise the text up to the first newline (which is
      consumed but not returned) and the rest of the stream. */
  function GetLine(s: string): (r: Option<(string, string)>)
    ensures r.None? <==> |s| == 0
    ensures r.Some? ==> '\n' !in r.value.0
    ensures r.Some? ==> |r.value.1| < |s|
    ensures r.Some? ==> s == r.value.0 + r.value.1 || s == r.value.0 + "\n" + r.value.1
    ensures r.Some? && |r.value.0| < |s| ==> s == r.value.0 + "\n" + r.value.1
  {
    if |s| == 0 then None
    else if s[0] == '\n' then Some(("", s[1..]))
    else
      match GetLine(s[1..])
      case None => Some((s, ""))
      case Some(p) => Some(([s[0]] + p.0, p.1))
  }

  /** A line followed by a newline is read back as that line. */
  lemma {:induction false} GetLineOfLine(line: string, rest: string)
    requires '\n' !in line
    ensures GetLine(line + "\n" + rest) == Some((line, rest))
  {
    if |line| > 0 {
      var s := line + "\n" + rest;
      assert s[0] == line[0] && line[0] != '\n';
      assert s[1..] == line[1..] + "\n" + rest;
      GetLineOfLine(line[1..], rest);
      assert [line[0]] + line[1..] == line;
    }
  }
}
