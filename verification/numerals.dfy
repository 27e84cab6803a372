/** The C, C++ and Python routines that turn decimal text into integers:
    strtol/strtoll, std::stoul, formatted stream extraction and Python int(). */
module CNumerals {
  import opened Wrappers
  import opened Text

  const ULongMax: nat := 0x1_0000_0000_0000_0000 - 1

  /** What a strtol-style scan read: the signed value of the numeral it found,
      and how many characters (leading whitespace and sign included) it covers.
      When no digit follows the optional whitespace and sign nothing is
      consumed and the value is 0, exactly as strtol reports a failed
      conversion by leaving `endptr` at the start. */
  datatype Scan = Scan(negative: bool, magnitude: nat, consumed: nat)
  {
    function Value(): int { if negative then -(magnitude as int) else magnitude }
  }

  function ScanInteger(s: string): (r: Scan)
    ensures r.consumed <= |s|
    ensures r.consumed == 0 ==> r.magnitude == 0 && !r.negative
    ensures r.consumed > 0 ==> IsDigit(s[r.consumed - 1])
    ensures r.consumed > 0 ==> r.consumed == |s| || !IsDigit(s[r.consumed])
  {
    var ws := LeadingSpaces(s);
    var rest := s[ws..];
    var signLen := if |rest| > 0 && (rest[0] == '+' || rest[0] == '-') then 1 else 0;
    var digits := LeadingDigits(rest[signLen..]);
    if digits == 0 then Scan(false, 0, 0)
    else
      assert rest[signLen..][..digits][digits - 1] == s[ws + signLen + digits - 1];
      Scan(signLen == 1 && rest[0] == '-', DigitsValue(rest[signLen..][..digits]), ws + signLen + digits)
  }

  /** strtol / strtoll in base 10, as (value, number of characters consumed).
      The C function saturates at LONG_MIN / LONG_MAX; every caller modelled
      here compares the value against a range far inside those limits, so the
      unsaturated value leads to the same decisions. */
  function StrToL(s: string): (r: (int, nat))
    ensures r.1 <= |s|
    ensures r.1 == 0 ==> r.0 == 0
  {
    var sc := ScanInteger(s);
    (sc.Value(), sc.consumed)
  }

  /** A rendered natural number is scanned back completely. */
  lemma StrToLOfNatToString(n: nat)
    ensures StrToL(NatToString(n)) == (n, |NatToString(n)|)
  {
    ScanOfDigits(NatToString(n));
    NatToStringValue(n);
  }

  /** Errors the C++ and Python conversions raise. */
  datatype NumberError = InvalidArgument | OutOfRange

  /** std::stoul: strtoul, throwing invalid_argument when nothing is converted
      and out_of_range when the magnitude exceeds unsigned long. A leading '-'
      negates in unsigned arithmetic, as strtoul does. Text after the numeral
      is ignored. */
  function StoUL(s: string): (r: Result<nat, NumberError>)
    ensures r.Ok? ==> r.value <= ULongMax
    ensures r.Err? && r.error == InvalidArgument <==> ScanInteger(s).consumed == 0
  {
    var sc := ScanInteger(s);
    if sc.consumed == 0 then Err(InvalidArgument)
    else if sc.magnitude > ULongMax then Err(OutOfRange)
    else if sc.negative && sc.magnitude > 0 then Ok(ULongMax + 1 - sc.magnitude)
    else Ok(sc.magnitude)
  }

  /** `is >> value` for a signed integer type with range [lo, hi], followed by
      the check that nothing but whitespace is left (`!(is >> c)`): the
      extraction skips whitespace, reads an optional sign and at least one
      digit, fails when the value does not fit, and the whole text must be
      used up apart from trailing whitespace. */
  function ExtractInteger(s: string, lo: int, hi: int): (r: Option<int>)
    ensures r.Some? ==> lo <= r.value <= hi
    ensures r.Some? ==> ScanInteger(s).consumed > 0
    ensures r.Some? ==> forall i :: ScanInteger(s).consumed <= i < |s| ==> IsSpace(s[i])
  {
    var sc := ScanInteger(s);
    if sc.consumed == 0 || !(lo <= sc.Value() <= hi) then None
    else if LeadingSpaces(s[sc.consumed..]) != |s| - sc.consumed then None
    else
      assert forall i :: sc.consumed <= i < |s| ==> s[i] == s[sc.consumed..][i - sc.consumed];
      Some(sc.Value())
  }

  /** A rendered number in range is extracted; one out of range is refused. */
  lemma ExtractRenderedInteger(n: nat, lo: int, hi: int)
    ensures ExtractInteger(NatToString(n), lo, hi) == if lo <= n <= hi then Some(n) else None
  {
    ScanOfDigits(NatToString(n));
    NatToStringValue(n);
    assert NatToString(n)[|NatToString(n)|..] == "";
  }

  /** `is >> std::boolalpha >> b` followed by the end-of-input check. */
  function ExtractBool(s: string): (r: Option<bool>)
    ensures r.Some? ==> exists i, j :: 0 <= i <= j <= |s| && (s[i..j] == "true" || s[i..j] == "false")
  {
    var ws := LeadingSpaces(s);
    var rest := s[ws..];
    if |rest| >= 4 && rest[..4] == "true" && LeadingSpaces(rest[4..]) == |rest| - 4 then
      assert s[ws..ws + 4] == "true";
      Some(true)
    else if |rest| >= 5 && rest[..5] == "false" && LeadingSpaces(rest[5..]) == |rest| - 5 then
      assert s[ws..ws + 5] == "false";
      Some(false)
    else None
  }

  /** The two words boolalpha writes are read back, with whitespace around
      them skipped; a numeral is not a boolean. */
  lemma ExtractBoolWords(pre: nat, post: nat)
    ensures ExtractBool(seq(pre, _ => ' ') + "true" + seq(post, _ => ' ')) == Some(true)
    ensures ExtractBool(seq(pre, _ => ' ') + "false" + seq(post, _ => ' ')) == Some(false)
    ensures ExtractBool("1") == None
  {
    SpacesThenWord(pre, "true", post);
    SpacesThenWord(pre, "false", post);
  }

  lemma SpacesThenWord(pre: nat, w: string, post: nat)
    requires |w| > 0 && !IsSpace(w[0])
    ensures var s := seq(pre, _ => ' ') + w + seq(post, _ => ' ');
            LeadingSpaces(s) == pre && s[pre..][..|w|] == w
            && LeadingSpaces(s[pre..][|w|..]) == post
  {
    var sp, tl := seq(pre, _ => ' '), seq(post, _ => ' ');
    var s := sp + w + tl;
    LeadingSpacesOfSpaces(pre, w + tl);
    assert s == sp + (w + tl);
    assert s[pre..] == w + tl;
    assert (w + tl)[|w|..] == tl;
    LeadingSpacesOfSpaces(post, "");
    assert tl + "" == tl;
  }

  /** Blanks followed by text that does not start with one are skipped up
      to that text. */
  lemma {:induction false} LeadingSpacesOfSpaces(n: nat, rest: string)
    requires |rest| == 0 || !IsSpace(rest[0])
    ensures LeadingSpaces(seq(n, _ => ' ') + rest) == n
    decreases n
  {
    var s := seq(n, _ => ' ') + rest;
    if n == 0 {
      assert s == rest;
    } else {
      assert s[1..] == seq(n - 1, _ => ' ') + rest;
      LeadingSpacesOfSpaces(n - 1, rest);
    }
  }

  /** Python int(s) for a str argument: surrounding whitespace is stripped,
      then an optional sign and one or more digits must make up the rest. */
  function PyInt(s: string): (r: Option<int>)
    ensures r.Some? ==> ScanInteger(s).consumed > 0
  {
    var sc := ScanInteger(s);
    if sc.consumed == 0 then None
    else if LeadingSpaces(s[sc.consumed..]) != |s| - sc.consumed then None
    else Some(sc.Value())
  }

  /** Leading zeros are dropped: int() of zero-padded digits is their value. */
  lemma PyIntOfDigits(pad: nat, n: nat)
    ensures PyInt(seq(pad, _ => '0') + NatToString(n)) == Some(n)
  {
    var s := seq(pad, _ => '0') + NatToString(n);
    ZerosDontCount(pad, NatToString(n));
    NatToStringValue(n);
    ScanOfDigits(s);
  }

  /** A non-empty run of digits is scanned completely, to its own value. */
  lemma ScanOfDigits(s: string)
    requires |s| > 0 && AllDigits(s)
    ensures ScanInteger(s) == Scan(false, DigitsValue(s), |s|)
    ensures PyInt(s) == Some(DigitsValue(s) as int)
  {
    ScanIntegerOfDigits(s);
    var sc := ScanInteger(s);
    var tail := s[sc.consumed..];
    assert |tail| == 0;
    assert LeadingSpaces(tail) == 0;
    assert sc.Value() == DigitsValue(s);
  }

  lemma ScanIntegerOfDigits(s: string)
    requires |s| > 0 && AllDigits(s)
    ensures ScanInteger(s) == Scan(false, DigitsValue(s), |s|)
  {
    assert IsDigit(s[0]);
    assert LeadingSpaces(s) == 0;
    assert s[0..] == s;
    assert s[0..][0..] == s;
    LeadingDigitsOfDigits(s);
    assert s[..|s|] == s;
  }

  lemma {:induction false} ZerosDontCount(pad: nat, t: string)
    requires AllDigits(t)
    ensures AllDigits(seq(pad, _ => '0') + t)
    ensures DigitsValue(seq(pad, _ => '0') + t) == DigitsValue(t)
    decreases |t|
  {
    var z := seq(pad, _ => '0');
    if |t| == 0 {
      assert z + t == z;
      AllZeros(pad);
    } else {
      var u := z + t;
      assert u[..|u| - 1] == z + t[..|t| - 1];
      ZerosDontCount(pad, t[..|t| - 1]);
    }
  }

  lemma {:induction false} AllZeros(pad: nat)
    ensures AllDigits(seq(pad, _ => '0'))
    ensures DigitsValue(seq(pad, _ => '0')) == 0
  {
    if pad > 0 {
      var z := seq(pad, _ => '0');
      assert z[..pad - 1] == seq(pad - 1, _ => '0');
      AllZeros(pad - 1);
    }
  }
}
