/** The INI-style configuration reader of the Skywing mid layer: trimming,
    line parsing into sections, trailing-comment stripping, and `${name}` /
    `${section:name}` interpolation, plus the address parser used on its
    values. Sections and their entries are std::maps, modelled as sorted
    association lists. Whitespace is the C locale's. */
module Config {
  import opened Wrappers
  import opened Text
  import opened CInts
  import opened CNumerals
  import opened SortedMap
  import StringOrder

  // ---------------------------------------------------------------------
  // Trimming
  // ---------------------------------------------------------------------

  predicate AllSpace(s: string)
  {
    forall i :: 0 <= i < |s| ==> IsSpace(s[i])
  }

  /** `ltrim`: drops the leading whitespace. */
  function LTrim(s: string): (r: string)
    ensures |r| <= |s|
    ensures AllSpace(s[..|s| - |r|])
    ensures |r| == 0 || !IsSpace(r[0])
  {
    s[LeadingSpaces(s)..]
  }

  /** The length of s without its trailing whitespace. */
  function TrimmedLength(s: string): (n: nat)
    ensures n <= |s|
    ensures forall i :: n <= i < |s| ==> IsSpace(s[i])
    ensures n == 0 || !IsSpace(s[n - 1])
  {
    if |s| == 0 || !IsSpace(s[|s| - 1]) then |s| else TrimmedLength(s[..|s| - 1])
  }

  /** `rtrim`: drops the trailing whitespace. */
  function RTrim(s: string): (r: string)
    ensures |r| <= |s|
    ensures AllSpace(s[|r|..])
    ensures |r| == 0 || !IsSpace(r[|r| - 1])
  {
    s[..TrimmedLength(s)]
  }

  /** What `ltrim` keeps is a suffix of its input. */
  lemma LTrimSuffix(s: string)
    ensures LTrim(s) == s[|s| - |LTrim(s)|..]
  {
  }

  /** What `rtrim` keeps is a prefix of its input. */
  lemma RTrimPrefix(s: string)
    ensures RTrim(s) == s[..|RTrim(s)|]
  {
  }

  /** Trimming twice is trimming once. */
  lemma TrimIdempotent(s: string)
    ensures LTrim(LTrim(s)) == LTrim(s)
    ensures RTrim(RTrim(s)) == RTrim(s)
  {
    LTrimOfTrimmed(LTrim(s));
    RTrimOfTrimmed(RTrim(s));
  }

  /** Trimming removes only whitespace: what it removes is whitespace and what
      it keeps starts (or ends) with a non-space. */
  lemma {:induction false} LTrimUnique(s: string, pre: string, r: string)
    requires s == pre + r && AllSpace(pre) && (|r| == 0 || !IsSpace(r[0]))
    ensures LTrim(s) == r
    decreases |pre|
  {
    if |pre| == 0 {
      assert s == r;
    } else {
      assert s[0] == pre[0];
      assert s[1..] == pre[1..] + r;
      LTrimUnique(s[1..], pre[1..], r);
    }
  }

  lemma {:induction false} RTrimUnique(s: string, r: string, post: string)
    requires s == r + post && AllSpace(post) && (|r| == 0 || !IsSpace(r[|r| - 1]))
    ensures RTrim(s) == r
    decreases |post|
  {
    if |post| == 0 {
      assert s == r;
    } else {
      assert s[|s| - 1] == post[|post| - 1];
      assert s[..|s| - 1] == r + post[..|post| - 1];
      RTrimUnique(s[..|s| - 1], r, post[..|post| - 1]);
    }
  }

  /** The position of the first c in s, or |s|. */
  function IndexOf(s: string, c: char): (i: nat)
    ensures i <= |s|
    ensures i < |s| ==> s[i] == c
    ensures c !in s[..i]
  {
    if |s| == 0 then 0
    else if s[0] == c then 0
    else
      var i := 1 + IndexOf(s[1..], c);
      assert s[..i] == [s[0]] + s[1..][..i - 1];
      i
  }

  /** The first c of a text is the one right after a c-free prefix. */
  lemma {:induction false} IndexOfAfterPrefix(p: string, c: char, q: string)
    requires c !in p
    ensures IndexOf(p + [c] + q, c) == |p|
    decreases |p|
  {
    var s := p + [c] + q;
    if |p| > 0 {
      assert s[0] == p[0];
      assert s[1..] == p[1..] + [c] + q;
      IndexOfAfterPrefix(p[1..], c, q);
    } else {
      assert s[0] == c;
    }
  }

  /** `rtrim2` with the comment predicate: cuts s at its first c. */
  function CutAt(s: string, c: char): (r: string)
    ensures |r| <= |s| && r == s[..|r|] && c !in r
    ensures |r| < |s| ==> s[|r|] == c
  {
    s[..IndexOf(s, c)]
  }

  // ---------------------------------------------------------------------
  // Substitution
  // ---------------------------------------------------------------------

  predicate OccursAt(s: string, pat: string, i: nat)
  {
    i + |pat| <= |s| && s[i..i + |pat|] == pat
  }

  /** pat[k..] matches s from position at + k on, compared character by
      character. */
  predicate MatchFrom(s: string, pat: string, at: nat, k: nat)
    requires at + |pat| <= |s| && k <= |pat|
    decreases |pat| - k
  {
    k == |pat| || (s[at + k] == pat[k] && MatchFrom(s, pat, at, k + 1))
  }

  lemma {:induction false} MatchFromOccurs(s: string, pat: string, at: nat, k: nat)
    requires at + |pat| <= |s| && k <= |pat|
    ensures MatchFrom(s, pat, at, k) <==> s[at + k..at + |pat|] == pat[k..]
    decreases |pat| - k
  {
    if k < |pat| {
      MatchFromOccurs(s, pat, at, k + 1);
      assert s[at + k..at + |pat|] == [s[at + k]] + s[at + k + 1..at + |pat|];
      assert pat[k..] == [pat[k]] + pat[k + 1..];
    }
  }

  /** The first position at or after `from` where pat occurs. */
  function FindSubFrom(s: string, pat: string, from: nat): (r: Option<nat>)
    requires |pat| > 0
    ensures r.Some? ==> from <= r.value && OccursAt(s, pat, r.value)
    ensures forall i: nat :: from <= i && (r.None? || i < r.value) ==> !OccursAt(s, pat, i)
    decreases |s| - from
  {
    if from + |pat| > |s| then None
    else
      MatchFromOccurs(s, pat, from, 0);
      if MatchFrom(s, pat, from, 0) then Some(from) else FindSubFrom(s, pat, from + 1)
  }

  /** std::string::find(pat): the first occurrence of pat. */
  function FindSub(s: string, pat: string): (r: Option<nat>)
    requires |pat| > 0
    ensures r.Some? ==> OccursAt(s, pat, r.value)
    ensures forall i: nat :: (r.None? || i < r.value) ==> !OccursAt(s, pat, i)
  {
    FindSubFrom(s, pat, 0)
  }

  /** Replaces every occurrence of `from`, scanning left to right and resuming
      after each replacement, so replaced text is never rescanned. */
  function ReplaceAll(s: string, from: string, to: string): string
    requires |from| > 0
    decreases |s|
  {
    match FindSub(s, from)
    case None => s
    case Some(i) => s[..i] + to + ReplaceAll(s[i + |from|..], from, to)
  }

  /** Text without an occurrence of `from` is left as it is. */
  lemma ReplaceAllNone(s: string, from: string, to: string)
    requires |from| > 0 && FindSub(s, from).None?
    ensures ReplaceAll(s, from, to) == s
  {
  }

  /** The first occurrence is replaced and the scan resumes after it. */
  lemma ReplaceAllAt(s: string, from: string, to: string)
    requires |from| > 0 && FindSub(s, from).Some?
    ensures var i := FindSub(s, from).value;
            i + |from| <= |s|
            && ReplaceAll(s, from, to) == s[..i] + to + ReplaceAll(s[i + |from|..], from, to)
  {
  }

  /** `replace`: substitutes every occurrence of `from` by `to` in place and
      reports whether anything changed. A non-empty `from` is required; with
      an empty one the C++ loop does not terminate. The string being edited
      is `done + rest`, and the loop's `start_pos` is `|done|`: the search
      resumes after the text just inserted. */
  method Replace(str: string, from: string, to: string) returns (r: string, changed: bool)
    requires |from| > 0
    ensures r == ReplaceAll(str, from, to)
    ensures changed <==> FindSub(str, from).Some?
  {
    var done, rest := "", str;
    EmptyAppend(ReplaceAll(str, from, to));
    changed := false;
    while FindSub(rest, from).Some?
      invariant done + ReplaceAll(rest, from, to) == ReplaceAll(str, from, to)
      invariant !changed ==> done == "" && rest == str
      invariant changed ==> FindSub(str, from).Some?
      decreases |rest|
    {
      ReplaceLoopStep(done, rest, from, to);
      var i := FindSub(rest, from).value;
      done := done + rest[..i] + to;
      rest := rest[i + |from|..];
      changed := true;
    }
    ReplaceAllNone(rest, from, to);
    r := done + rest;
  }

  /** One iteration of the `replace` loop moves the text up to the end of
      the substitution into `done` and keeps the eventual result. */
  lemma ReplaceLoopStep(done: string, rest: string, from: string, to: string)
    requires |from| > 0 && FindSub(rest, from).Some?
    ensures var i := FindSub(rest, from).value;
            i + |from| <= |rest|
            && done + ReplaceAll(rest, from, to) == (done + rest[..i] + to) + ReplaceAll(rest[i + |from|..], from, to)
  {
    var i := FindSub(rest, from).value;
    ReplaceAllAt(rest, from, to);
    AppendAssoc(done, rest[..i], to, ReplaceAll(rest[i + |from|..], from, to));
  }

  lemma EmptyAppend(a: string)
    ensures "" + a == a
  {
  }

  lemma AppendAssoc(a: string, b: string, c: string, d: string)
    ensures a + (b + c + d) == (a + b + c) + d
  {
  }

  // ---------------------------------------------------------------------
  // Addresses
  // ---------------------------------------------------------------------

  /** The position of the last c in s, if any (`rfind`). */
  function LastIndexOf(s: string, c: char): (r: Option<nat>)
    ensures r.Some? ==> r.value < |s| && s[r.value] == c && c !in s[r.value + 1..]
    ensures r.None? ==> c !in s
  {
    if |s| == 0 then None
    else if s[|s| - 1] == c then Some(|s| - 1)
    else
      var r := LastIndexOf(s[..|s| - 1], c);
      assert r.Some? ==> s[r.value + 1..] == s[..|s| - 1][r.value + 1..] + [s[|s| - 1]];
      r
  }

  lemma {:induction false} LastIndexOfAfter(x: string, q: string, c: char)
    requires |x| > 0 && x[|x| - 1] == c && c !in q
    ensures LastIndexOf(x + q, c) == Some(|x| - 1)
    decreases |q|
  {
    if |q| == 0 {
      assert x + q == x;
    } else {
      assert (x + q)[|x + q| - 1] == q[|q| - 1];
      assert (x + q)[..|x + q| - 1] == x + q[..|q| - 1];
      LastIndexOfAfter(x, q[..|q| - 1], c);
    }
  }

  /** `extract_ip_and_port`: the host is everything before the last ':', the
      port what follows it. Without a colon, or with nothing after it, the
      port is 0; a port std::stoul cannot read raises an error; values above
      65535 are clamped to 65535. */
  function ExtractIpAndPort(value: string): (r: Result<(string, U16), NumberError>)
    ensures ':' !in value ==> r == Ok((value, 0))
    ensures r.Ok? && ':' in value ==>
              var h := r.value.0;
              |h| < |value| && value[..|h|] == h && value[|h|] == ':' && ':' !in value[|h| + 1..]
    ensures r.Err? ==> ':' in value
  {
    match LastIndexOf(value, ':')
    case None => Ok((value, 0))
    case Some(k) =>
      if k == |value| - 1 then Ok((value[..k], 0))
      else
        match StoUL(value[k + 1..])
        case Err(e) => Err(e)
        case Ok(n) => Ok((value[..k], if n > Two16 - 1 then Two16 - 1 else n))
  }

  /** The port text after the last colon decides the result. */
  lemma ExtractAt(value: string, k: nat, n: nat)
    requires LastIndexOf(value, ':') == Some(k) && k < |value| - 1
    requires StoUL(value[k + 1..]) == Ok(n)
    ensures ExtractIpAndPort(value) == Ok((value[..k], if n > Two16 - 1 then Two16 - 1 else n))
  {
  }

  /** A rendered port comes back unchanged, whatever colons the host holds,
      except that numbers above 65535 are clamped. */
  lemma ExtractRenderedAddress(host: string, port: nat)
    requires port <= ULongMax
    ensures ExtractIpAndPort(host + ":" + NatToString(port))
            == Ok((host, if port > Two16 - 1 then Two16 - 1 else port))
  {
    var p := NatToString(port);
    var s := host + ":" + p;
    assert ':' !in p by {
      forall i | 0 <= i < |p| ensures p[i] != ':' {
        assert IsDigit(p[i]);
      }
    }
    var k := |host|;
    assert s[k + 1..] == p;
    assert s == (host + ":") + p;
    LastIndexOfAfter(host + ":", p, ':');
    assert s[..k] == host;
    ScanOfDigits(p);
    NatToStringValue(port);
    assert StoUL(p) == Ok(port);
    ExtractAt(s, k, port);
  }

  /** A trailing colon gives port 0. */
  lemma ExtractTrailingColon(host: string)
    ensures ExtractIpAndPort(host + ":") == Ok((host, 0))
  {
    var s := host + ":";
    LastIndexOfAfter(s, "", ':');
    assert s + "" == s;
    assert s[..|host|] == host;
  }

  /** A port that does not start with a number is an invalid argument. */
  lemma ExtractRejectsNonNumeric(host: string, p: string)
    requires |p| > 0 && ':' !in p && ScanInteger(p).consumed == 0
    ensures ExtractIpAndPort(host + ":" + p) == Err(InvalidArgument)
  {
    var s := host + ":" + p;
    assert s == (host + ":") + p;
    LastIndexOfAfter(host + ":", p, ':');
    assert s[|host| + 1..] == p;
  }

  // ---------------------------------------------------------------------
  // Symbols
  // ---------------------------------------------------------------------

  /** `local_symbol`: `${name}` with the default format characters. */
  function LocalSymbol(name: string): (sym: string)
    ensures |sym| == |name| + 3 && sym[0] == '$' && sym[1] == '{' && sym[|sym| - 1] == '}'
    ensures sym[2..|sym| - 1] == name
  {
    "$" + ("{" + name + "}")
  }

  /** `global_symbol`: `${section:name}`. */
  function GlobalSymbol(section: string, name: string): (sym: string)
    ensures |sym| == |section| + |name| + 4
    ensures sym[0] == '$' && sym[2..|section| + 2] == section && sym[|section| + 2] == ':'
  {
    LocalSymbol(section + ":" + name)
  }

  lemma LocalSymbolInjective(a: string, b: string)
    requires LocalSymbol(a) == LocalSymbol(b)
    ensures a == b
  {
    var sa := LocalSymbol(a);
    assert sa[2..|sa| - 1] == a;
  }

  /** Section-qualified symbols are unambiguous as long as section names hold
      no ':'; keys may hold any character. */
  lemma GlobalSymbolInjective(s1: string, n1: string, s2: string, n2: string)
    requires ':' !in s1 && ':' !in s2
    requires GlobalSymbol(s1, n1) == GlobalSymbol(s2, n2)
    ensures s1 == s2 && n1 == n2
  {
    LocalSymbolInjective(s1 + ":" + n1, s2 + ":" + n2);
    ColonSplit(s1, n1, s2, n2);
  }

  lemma ColonSplit(s1: string, n1: string, s2: string, n2: string)
    requires ':' !in s1 && ':' !in s2
    requires s1 + ":" + n1 == s2 + ":" + n2
    ensures s1 == s2 && n1 == n2
  {
    var x := s1 + ":" + n1;
    IndexOfAfterPrefix(s1, ':', n1);
    IndexOfAfterPrefix(s2, ':', n2);
    assert s1 == x[..|s1|] && s2 == x[..|s2|];
    assert n1 == x[|s1| + 1..] && n2 == x[|s2| + 1..];
  }

  /** With ':' allowed in section names two different entries can share a
      symbol: `${a:b:c}` names both key `b:c` of section `a` and key `c` of
      section `a:b`. */
  lemma GlobalSymbolAmbiguous()
    ensures GlobalSymbol("a", "b:c") == GlobalSymbol("a:b", "c")
  {
  }

  // ---------------------------------------------------------------------
  // Parsing
  // ---------------------------------------------------------------------

  type Section = Assoc<string>
  type Sections = Assoc<Section>

  /** Both levels of the std::map-of-std::maps are in key order. */
  predicate WellSorted(secs: Sections)
  {
    KeysSorted(secs) && forall i :: 0 <= i < |secs| ==> KeysSorted(secs[i].1)
  }

  /** `sections[name]` read without inserting: the empty section when absent. */
  function SectionOf(secs: Sections, name: string): (sec: Section)
    requires WellSorted(secs)
    ensures KeysSorted(sec)
    ensures !HasKey(secs, name) ==> sec == []
  {
    match Get(secs, name)
    case Some(sec) => sec
    case None => []
  }

  /** `ltrim` followed by `rtrim`. */
  function Trim(s: string): (r: string)
    ensures |r| == 0 <==> AllSpace(s)
    ensures |r| > 0 ==> !IsSpace(r[0]) && !IsSpace(r[|r| - 1])
  {
    RTrim(LTrim(s))
  }

  /** Text with no whitespace at either end is its own trim. */
  lemma TrimOfTrimmed(s: string)
    requires |s| > 0 && !IsSpace(s[0]) && !IsSpace(s[|s| - 1])
    ensures Trim(s) == s
  {
    LTrimUnique(s, "", s);
    RTrimUnique(s, s, "");
  }

  /** How `parse` reads one trimmed line. */
  datatype LineKind =
    | Blank
    | Comment
    | Header(name: string)
    | BadHeader
    | Assignment(key: string, value: string)
    | Malformed

  function Classify(line: string): (k: LineKind)
    ensures k == Blank <==> AllSpace(line)
  {
    var t := Trim(line);
    if |t| == 0 then Blank
    else if t[0] == ';' then Comment
    else if t[0] == '[' then
      if t[|t| - 1] == ']' then Header(t[1..|t| - 1]) else BadHeader
    else
      var pos := IndexOf(t, '=');
      if pos != 0 && pos != |t| then
        Assignment(RTrim(t[..pos]), LTrim(t[pos + 1..]))
      else Malformed
  }

  /** An assignment's key is non-empty, holds no '=', and is trimmed, and so
      is its value; the key cannot start a comment or a header. */
  lemma AssignmentShape(line: string)
    requires Classify(line).Assignment?
    ensures var k := Classify(line);
            |k.key| > 0 && '=' !in k.key && !IsSpace(k.key[0]) && !IsSpace(k.key[|k.key| - 1])
            && k.key[0] != ';' && k.key[0] != '['
            && (|k.value| == 0 || (!IsSpace(k.value[0]) && !IsSpace(k.value[|k.value| - 1])))
  {
    var t := Trim(line);
    var pos := IndexOf(t, '=');
    KeyShape(t, pos);
    ValueShape(t, pos);
  }

  /** The key of a trimmed line with '=' past its first character. */
  lemma KeyShape(t: string, pos: nat)
    requires 0 < pos < |t| && !IsSpace(t[0]) && '=' !in t[..pos]
    ensures var key := RTrim(t[..pos]);
            |key| > 0 && key[0] == t[0] && '=' !in key && !IsSpace(key[|key| - 1])
  {
    var p := t[..pos];
    var key := RTrim(p);
    assert p[0] == t[0];
    assert key == p[..|key|];
    assert key[0] == p[0];
    assert forall i :: 0 <= i < |key| ==> key[i] == p[i];
  }

  /** The value of a trimmed line: what follows the '=', left-trimmed. */
  lemma ValueShape(t: string, pos: nat)
    requires pos < |t| && !IsSpace(t[|t| - 1])
    ensures var value := LTrim(t[pos + 1..]);
            |value| == 0 || (!IsSpace(value[0]) && !IsSpace(value[|value| - 1]))
  {
    var rest := t[pos + 1..];
    var value := LTrim(rest);
    if |value| > 0 {
      assert value[|value| - 1] == rest[|rest| - 1];
      assert rest[|rest| - 1] == t[|t| - 1];
    }
  }

  /** The section header `generate` writes is read back as that header. */
  lemma ClassifyHeader(name: string)
    ensures Classify("[" + name + "]") == Header(name)
  {
    var s := "[" + name + "]";
    TrimOfTrimmed(s);
    assert s[1..|s| - 1] == name;
  }

  /** The `key=value` line `generate` writes is read back as that assignment,
      for keys and values that are already trimmed and keys that cannot be
      mistaken for a comment or a header. */
  lemma ClassifyAssignment(key: string, value: string)
    requires |key| > 0 && '=' !in key && !IsSpace(key[0]) && !IsSpace(key[|key| - 1])
    requires key[0] != ';' && key[0] != '['
    requires |value| == 0 || (!IsSpace(value[0]) && !IsSpace(value[|value| - 1]))
    ensures Classify(key + "=" + value) == Assignment(key, value)
  {
    var s := key + "=" + value;
    AssignmentText(key, value);
    TrimOfTrimmed(s);
    IndexOfAfterPrefix(key, '=', value);
    RTrimOfTrimmed(key);
    LTrimOfTrimmed(value);
  }

  /** The pieces of the text key=value. */
  lemma AssignmentText(key: string, value: string)
    requires |key| > 0
    ensures var s := key + "=" + value;
            s == key + ['='] + value && s[0] == key[0]
            && s[|s| - 1] == (if |value| == 0 then '=' else value[|value| - 1])
            && s[..|key|] == key && s[|key| + 1..] == value
  {
  }

  lemma RTrimOfTrimmed(s: string)
    requires |s| == 0 || !IsSpace(s[|s| - 1])
    ensures RTrim(s) == s
  {
    assert s == s + "";
    RTrimUnique(s, s, "");
  }

  lemma LTrimOfTrimmed(s: string)
    requires |s| == 0 || !IsSpace(s[0])
    ensures LTrim(s) == s
  {
    assert s == "" + s;
    LTrimUnique(s, "", s);
  }

  lemma ClassifyComment(text: string)
    ensures Classify(";" + text) == Comment
  {
    var s := ";" + text;
    LTrimUnique(s, "", s);
    assert s[0] == ';';
  }

  /** The state `parse` threads through the lines: the sections so far, the
      rejected lines, and the current section name. */
  datatype ParseState = ParseState(sections: Sections, errors: seq<string>, current: string)

  /** One iteration of the `parse` loop. Blank and comment lines are skipped;
      a header switches the section; an assignment stores its key in the
      current section unless the key is already there; every other line, and
      a duplicate key, is recorded in trimmed form as an error. */
  function ParseLine(p: ParseState, line: string): (r: ParseState)
    requires WellSorted(p.sections)
    ensures WellSorted(r.sections)
    ensures r.errors == p.errors || r.errors == p.errors + [Trim(line)]
    ensures r.errors == p.errors + [Trim(line)] ==> r.sections == p.sections && r.current == p.current
  {
    match Classify(line)
    case Blank => p
    case Comment => p
    case Header(name) => p.(current := name)
    case Assignment(key, value) =>
      var sec := SectionOf(p.sections, p.current);
      if Get(sec, key).None? then
        StoreKeepsSorted(p.sections, p.current, key, value);
        p.(sections := Put(p.sections, p.current, Put(sec, key, value)))
      else p.(errors := p.errors + [Trim(line)])
    case BadHeader => p.(errors := p.errors + [Trim(line)])
    case Malformed => p.(errors := p.errors + [Trim(line)])
  }

  /** Storing a key in one section keeps every key list sorted. */
  lemma StoreKeepsSorted(secs: Sections, name: string, key: string, value: string)
    requires WellSorted(secs)
    ensures WellSorted(Put(secs, name, Put(SectionOf(secs, name), key, value)))
  {
    var sec' := Put(SectionOf(secs, name), key, value);
    var secs' := Put(secs, name, sec');
    forall i | 0 <= i < |secs'| ensures KeysSorted(secs'[i].1) {
      if secs'[i] != (name, sec') {
        var j :| 0 <= j < |secs| && secs[j] == secs'[i];
      }
    }
  }

  /** The lines std::getline yields, in order. */
  function Lines(content: string): (ls: seq<string>)
    ensures forall i :: 0 <= i < |ls| ==> '\n' !in ls[i]
    decreases |content|
  {
    match GetLine(content)
    case None => []
    case Some(p) => [p.0] + Lines(p.1)
  }

  function ParseLines(p: ParseState, ls: seq<string>): (r: ParseState)
    requires WellSorted(p.sections)
    ensures WellSorted(r.sections)
    decreases |ls|
  {
    if |ls| == 0 then p else ParseLines(ParseLine(p, ls[0]), ls[1..])
  }

  /** `parse`: reads every line of the file into sections. */
  function Parse(content: string): (r: ParseState)
    ensures WellSorted(r.sections)
  {
    ParseLines(ParseState([], [], ""), Lines(content))
  }

  /** First definition wins: a line never changes or removes a stored key. */
  lemma ParseLineKeeps(p: ParseState, line: string, s: string, k: string, v: string)
    requires WellSorted(p.sections)
    requires Get(SectionOf(p.sections, s), k) == Some(v)
    ensures Get(SectionOf(ParseLine(p, line).sections, s), k) == Some(v)
  {
    var r := ParseLine(p, line);
    if r.sections != p.sections {
      var key := Classify(line).key;
      var value := Classify(line).value;
      var sec := SectionOf(p.sections, p.current);
      if s == p.current {
        assert Get(sec, key).None?;
        assert k != key;
      } else {
        assert Get(r.sections, s) == Get(p.sections, s);
      }
    }
  }

  lemma {:induction false} ParseLinesKeep(p: ParseState, ls: seq<string>, s: string, k: string, v: string)
    requires WellSorted(p.sections)
    requires Get(SectionOf(p.sections, s), k) == Some(v)
    ensures Get(SectionOf(ParseLines(p, ls).sections, s), k) == Some(v)
    decreases |ls|
  {
    if |ls| > 0 {
      ParseLineKeeps(p, ls[0], s, k, v);
      ParseLinesKeep(ParseLine(p, ls[0]), ls[1..], s, k, v);
    }
  }

  /** A new key is stored in the current section; a repeated one is an error
      and leaves the sections as they were. */
  lemma ParseLineAssigns(p: ParseState, line: string)
    requires WellSorted(p.sections) && Classify(line).Assignment?
    ensures var r := ParseLine(p, line);
            var key := Classify(line).key;
            if Get(SectionOf(p.sections, p.current), key).None? then
              Get(SectionOf(r.sections, p.current), key) == Some(Classify(line).value)
              && r.errors == p.errors
            else
              r.sections == p.sections && r.errors == p.errors + [Trim(line)]
  {
  }

  /** Blank lines and comments change nothing. */
  lemma ParseLineSkips(p: ParseState, line: string)
    requires WellSorted(p.sections)
    requires AllSpace(line) || Trim(line)[0] == ';'
    ensures ParseLine(p, line) == p
  {
  }

  /** Parsing a file in two parts is parsing the second from where the first
      stopped, so errors are only ever appended. */
  lemma {:induction false} ParseLinesAppend(p: ParseState, a: seq<string>, b: seq<string>)
    requires WellSorted(p.sections)
    ensures ParseLines(p, a + b) == ParseLines(ParseLines(p, a), b)
    ensures ParseLines(p, a).errors <= ParseLines(p, a + b).errors
    decreases |a|
  {
    if |a| == 0 {
      assert a + b == b;
      ErrorsGrow(p, b);
    } else {
      assert (a + b)[1..] == a[1..] + b;
      ParseLinesAppend(ParseLine(p, a[0]), a[1..], b);
    }
  }

  lemma {:induction false} ErrorsGrow(p: ParseState, ls: seq<string>)
    requires WellSorted(p.sections)
    ensures p.errors <= ParseLines(p, ls).errors
    decreases |ls|
  {
    if |ls| > 0 {
      ErrorsGrow(ParseLine(p, ls[0]), ls[1..]);
    }
  }

  // ---------------------------------------------------------------------
  // Trailing comments
  // ---------------------------------------------------------------------

  /** One value after `rtrim2` at ';' and `rtrim`. */
  function StripValue(v: string): (r: string)
    ensures ';' !in r && (|r| == 0 || !IsSpace(r[|r| - 1]))
    ensures |r| <= |v| && r == v[..|r|]
  {
    RTrim(CutAt(v, ';'))
  }

  /** What is removed is whitespace, then either nothing or a ';' and all
      that follows it. */
  lemma StripValueRemoves(v: string)
    ensures var r := StripValue(v);
            var c := CutAt(v, ';');
            AllSpace(v[|r|..|c|]) && (|c| == |v| || v[|c|] == ';')
  {
    var c := CutAt(v, ';');
    var r := StripValue(v);
    assert v[|r|..|c|] == c[|r|..];
  }

  lemma StripValueIdempotent(v: string)
    ensures StripValue(StripValue(v)) == StripValue(v)
  {
    var r := StripValue(v);
    assert CutAt(r, ';') == r by {
      assert IndexOf(r, ';') == |r|;
    }
    RTrimIdempotent(r);
  }

  lemma RTrimIdempotent(s: string)
    ensures RTrim(RTrim(s)) == RTrim(s)
  {
    TrimIdempotent(s);
  }

  /** `strip_trailing_comments` over every value of every section. */
  function StripTrailingComments(secs: Sections): (r: Sections)
    ensures |r| == |secs|
    ensures forall i :: 0 <= i < |secs| ==>
              r[i].0 == secs[i].0 && |r[i].1| == |secs[i].1|
              && forall j :: 0 <= j < |secs[i].1| ==>
                   r[i].1[j] == (secs[i].1[j].0, StripValue(secs[i].1[j].1))
    ensures WellSorted(secs) ==> WellSorted(r)
  {
    MapValues(secs, (sec: Section) => MapValues(sec, StripValue))
  }

  /** Stripping twice is stripping once. */
  lemma StripTwice(secs: Sections)
    ensures StripTrailingComments(StripTrailingComments(secs)) == StripTrailingComments(secs)
  {
    var once := StripTrailingComments(secs);
    var twice := StripTrailingComments(once);
    forall i | 0 <= i < |secs| ensures twice[i] == once[i] {
      forall j | 0 <= j < |once[i].1| ensures twice[i].1[j] == once[i].1[j] {
        StripValueIdempotent(secs[i].1[j].1);
      }
      assert twice[i].1 == once[i].1;
    }
  }

  // ---------------------------------------------------------------------
  // Interpolation
  // ---------------------------------------------------------------------

  /** `max_interpolation_depth`. */
  const MaxInterpolationDepth: nat := 10

  /** A list of (symbol, replacement) pairs; every symbol starts with '$'. */
  type Symbols = seq<(string, string)>

  predicate SymbolsOk(syms: Symbols)
  {
    forall i :: 0 <= i < |syms| ==> |syms[i].0| > 0 && syms[i].0[0] == '$'
  }

  /** `local_symbols`: `${key}` becomes `${section:key}` for every key. */
  function LocalSymbols(name: string, sec: Section): (syms: Symbols)
    ensures |syms| == |sec| && SymbolsOk(syms)
    ensures forall i :: 0 <= i < |sec| ==>
              syms[i] == (LocalSymbol(sec[i].0), GlobalSymbol(name, sec[i].0))
  {
    seq(|sec|, i requires 0 <= i < |sec| => (LocalSymbol(sec[i].0), GlobalSymbol(name, sec[i].0)))
  }

  function SectionSymbols(name: string, sec: Section): (syms: Symbols)
    ensures |syms| == |sec| && SymbolsOk(syms)
    ensures forall i :: 0 <= i < |sec| ==> syms[i] == (GlobalSymbol(name, sec[i].0), sec[i].1)
  {
    seq(|sec|, i requires 0 <= i < |sec| => (GlobalSymbol(name, sec[i].0), sec[i].1))
  }

  /** `global_symbols`: `${section:key}` becomes the key's value, for every
      key of every section, in map order. */
  function GlobalSymbols(secs: Sections): (syms: Symbols)
    ensures SymbolsOk(syms)
    decreases |secs|
  {
    if |secs| == 0 then [] else SectionSymbols(secs[0].0, secs[0].1) + GlobalSymbols(secs[1..])
  }

  /** Whether `replace` reports a change for some value of sec. */
  predicate Mentions(sec: Section, sym: string)
    requires |sym| > 0
  {
    exists i :: 0 <= i < |sec| && FindSub(sec[i].1, sym).Some?
  }

  /** `replace` of one symbol over every value of a section. */
  function Substitute(sec: Section, from: string, to: string): (r: Section)
    requires |from| > 0
    ensures |r| == |sec|
    ensures forall i :: 0 <= i < |sec| ==> r[i] == (sec[i].0, ReplaceAll(sec[i].1, from, to))
    ensures !Mentions(sec, from) ==> r == sec
  {
    var r := MapValues(sec, v => ReplaceAll(v, from, to));
    assert !Mentions(sec, from) ==> r == sec by {
      if !Mentions(sec, from) {
        forall i | 0 <= i < |sec| ensures r[i] == sec[i] {
          assert FindSub(sec[i].1, from).None?;
        }
      }
    }
    r
  }

  /** `replace_symbols`: every symbol in turn, over every value. */
  function ReplaceSymbols(syms: Symbols, sec: Section): (r: (Section, bool))
    requires SymbolsOk(syms)
    ensures |r.0| == |sec|
    ensures forall i :: 0 <= i < |sec| ==> r.0[i].0 == sec[i].0
    ensures !r.1 ==> r.0 == sec
    decreases |syms|
  {
    if |syms| == 0 then (sec, false)
    else
      var once := Substitute(sec, syms[0].0, syms[0].1);
      var rest := ReplaceSymbols(syms[1..], once);
      (rest.0, Mentions(sec, syms[0].0) || rest.1)
  }

  /** Keeping the keys keeps both levels sorted. */
  lemma SameKeysSorted(a: Section, b: Section)
    requires |a| == |b| && forall i :: 0 <= i < |a| ==> a[i].0 == b[i].0
    requires KeysSorted(a)
    ensures KeysSorted(b)
  {
  }

  /** The first phase of `interpolate`: within each section, `${key}` becomes
      `${section:key}`. */
  function LocalPhase(secs: Sections): (r: Sections)
    ensures |r| == |secs|
    ensures forall i :: 0 <= i < |secs| ==> r[i].0 == secs[i].0 && KeyList(r[i].1) == KeyList(secs[i].1)
  {
    seq(|secs|, i requires 0 <= i < |secs| =>
      (secs[i].0, ReplaceSymbols(LocalSymbols(secs[i].0, secs[i].1), secs[i].1).0))
  }

  /** One pass of the second phase: the symbols are taken from the sections
      as they stand at the start of the pass; the flag is the `|=` of every
      `replace`. */
  function GlobalPass(secs: Sections): (r: (Sections, bool))
    ensures |r.0| == |secs|
    ensures forall i :: 0 <= i < |secs| ==> r.0[i].0 == secs[i].0 && KeyList(r.0[i].1) == KeyList(secs[i].1)
    ensures !r.1 ==> r.0 == secs
  {
    var syms := GlobalSymbols(secs);
    var next := seq(|secs|, i requires 0 <= i < |secs| => (secs[i].0, ReplaceSymbols(syms, secs[i].1).0));
    var changed := exists i :: 0 <= i < |secs| && ReplaceSymbols(syms, secs[i].1).1;
    assert !changed ==> next == secs by {
      if !changed {
        forall i | 0 <= i < |secs| ensures next[i] == secs[i] {
          assert !ReplaceSymbols(syms, secs[i].1).1;
        }
      }
    }
    (next, changed)
  }

  /** The `do … while (changed && max_interpolation_depth > iteration++)`
      loop, from a given iteration count; returns the sections and how many
      passes ran. */
  function GlobalPhase(secs: Sections, iteration: nat): (r: (Sections, nat))
    requires iteration <= MaxInterpolationDepth
    ensures 1 <= r.1 <= MaxInterpolationDepth + 1 - iteration
    ensures |r.0| == |secs|
    ensures forall i :: 0 <= i < |secs| ==> r.0[i].0 == secs[i].0 && KeyList(r.0[i].1) == KeyList(secs[i].1)
    decreases MaxInterpolationDepth - iteration
  {
    var (next, changed) := GlobalPass(secs);
    if changed && MaxInterpolationDepth > iteration then
      var (last, n) := GlobalPhase(next, iteration + 1);
      (last, n + 1)
    else (next, 1)
  }

  /** `interpolate`, returning the sections and the number of global passes. */
  function Interpolate(secs: Sections): (r: (Sections, nat))
    ensures 1 <= r.1 <= MaxInterpolationDepth + 1
    ensures |r.0| == |secs|
    ensures forall i :: 0 <= i < |secs| ==> r.0[i].0 == secs[i].0 && KeyList(r.0[i].1) == KeyList(secs[i].1)
  {
    GlobalPhase(LocalPhase(secs), 0)
  }

  /** Interpolation keeps every section and key where it was, so the map
      structure stays sorted. */
  lemma InterpolateWellSorted(secs: Sections)
    requires WellSorted(secs)
    ensures WellSorted(Interpolate(secs).0)
  {
    var r := Interpolate(secs).0;
    forall i | 0 <= i < |r| ensures KeysSorted(r[i].1) {
      assert KeyList(r[i].1) == KeyList(secs[i].1);
      assert forall j :: 0 <= j < |r[i].1| ==> r[i].1[j].0 == KeyList(r[i].1)[j];
      SameKeysSorted(secs[i].1, r[i].1);
    }
  }

  /** When the loop stops before its depth limit, another pass would change
      nothing: every symbol that can be resolved has been. */
  lemma {:induction false} GlobalPhaseEarlyStop(secs: Sections, iteration: nat)
    requires iteration <= MaxInterpolationDepth
    requires GlobalPhase(secs, iteration).1 < MaxInterpolationDepth + 1 - iteration
    ensures var last := GlobalPhase(secs, iteration).0;
            GlobalPass(last) == (last, false)
    decreases MaxInterpolationDepth - iteration
  {
    var (next, changed) := GlobalPass(secs);
    if changed && MaxInterpolationDepth > iteration {
      GlobalPhaseEarlyStop(next, iteration + 1);
    } else {
      assert next == secs;
    }
  }

  /** A symbol starting with '$' is never found in text without '$'. */
  lemma NoDollarNoMatch(s: string, sym: string)
    requires |sym| > 0 && sym[0] == '$' && '$' !in s
    ensures FindSub(s, sym).None?
  {
    FindSubFirstChar(s, sym);
  }

  lemma FindSubFirstChar(s: string, pat: string)
    requires |pat| > 0
    ensures FindSub(s, pat).Some? ==> s[FindSub(s, pat).value] == pat[0]
  {
    var r := FindSub(s, pat);
    if r.Some? {
      assert s[r.value..r.value + |pat|][0] == s[r.value];
    }
  }

  predicate NoDollar(secs: Sections)
  {
    forall i, j :: 0 <= i < |secs| && 0 <= j < |secs[i].1| ==> '$' !in secs[i].1[j].1
  }

  lemma {:induction false} ReplaceSymbolsNoDollar(syms: Symbols, sec: Section)
    requires SymbolsOk(syms)
    requires forall j :: 0 <= j < |sec| ==> '$' !in sec[j].1
    ensures ReplaceSymbols(syms, sec) == (sec, false)
    decreases |syms|
  {
    if |syms| > 0 {
      forall j | 0 <= j < |sec| ensures FindSub(sec[j].1, syms[0].0).None? {
        NoDollarNoMatch(sec[j].1, syms[0].0);
      }
      assert Substitute(sec, syms[0].0, syms[0].1) == sec;
      ReplaceSymbolsNoDollar(syms[1..], sec);
    }
  }

  /** Values that hold no '$' are left alone by one pass and the loop stops
      after it. */
  lemma InterpolateNoDollar(secs: Sections)
    requires NoDollar(secs)
    ensures Interpolate(secs) == (secs, 1)
  {
    var l := LocalPhase(secs);
    forall i | 0 <= i < |secs| ensures l[i] == secs[i] {
      ReplaceSymbolsNoDollar(LocalSymbols(secs[i].0, secs[i].1), secs[i].1);
    }
    assert l == secs;
    var syms := GlobalSymbols(secs);
    forall i | 0 <= i < |secs| ensures !ReplaceSymbols(syms, secs[i].1).1 {
      ReplaceSymbolsNoDollar(syms, secs[i].1);
    }
    assert !GlobalPass(secs).1;
  }

  /** A symbol standing alone is replaced by its replacement. */
  lemma ReplaceWhole(sym: string, to: string)
    requires |sym| > 0
    ensures ReplaceAll(sym, sym, to) == to
  {
    assert sym[0..|sym|] == sym;
    MatchFromOccurs(sym, sym, 0, 0);
    assert FindSub(sym, sym) == Some(0);
    assert FindSub(sym[|sym|..], sym).None?;
    ReplaceAllNone(sym[|sym|..], sym, to);
    assert sym[..0] + to + "" == to;
  }

  // ---------------------------------------------------------------------
  // The constructor
  // ---------------------------------------------------------------------

  /** `Config(filename)` on the file's text: parse, strip trailing comments,
      interpolate. Only values change after parsing: the sections and their
      keys are the ones the file defined, still sorted. */
  function Load(content: string): (secs: Sections)
    ensures WellSorted(secs)
    ensures var parsed := Parse(content).sections;
            |secs| == |parsed|
            && forall i :: 0 <= i < |parsed| ==>
                 secs[i].0 == parsed[i].0 && KeyList(secs[i].1) == KeyList(parsed[i].1)
  {
    var parsed := Parse(content).sections;
    var stripped := StripTrailingComments(parsed);
    InterpolateWellSorted(stripped);
    StripKeepsKeys(parsed);
    Interpolate(stripped).0
  }

  lemma StripKeepsKeys(secs: Sections)
    ensures var r := StripTrailingComments(secs);
            forall i :: 0 <= i < |secs| ==> r[i].0 == secs[i].0 && KeyList(r[i].1) == KeyList(secs[i].1)
  {
    var r := StripTrailingComments(secs);
    forall i | 0 <= i < |secs| ensures KeyList(r[i].1) == KeyList(secs[i].1) {
      assert |r[i].1| == |secs[i].1|;
      assert forall j :: 0 <= j < |secs[i].1| ==> r[i].1[j].0 == secs[i].1[j].0;
    }
  }

  /** A file whose values hold no '$' loads as its parsed sections with the
      trailing comments stripped. */
  lemma LoadNoDollar(content: string)
    requires NoDollar(Parse(content).sections)
    ensures Load(content) == StripTrailingComments(Parse(content).sections)
  {
    var parsed := Parse(content).sections;
    var stripped := StripTrailingComments(parsed);
    forall i, j | 0 <= i < |stripped| && 0 <= j < |stripped[i].1| ensures '$' !in stripped[i].1[j].1 {
      assert stripped[i].1[j].1 == parsed[i].1[j].1[..|stripped[i].1[j].1|];
    }
    InterpolateNoDollar(stripped);
  }
}
