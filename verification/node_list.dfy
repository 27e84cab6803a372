/** The node-list expander of the LC hello-world launcher script: a
    cluster's node list such as "quartz[3,7-9]" becomes the node names
    "quartz3", "quartz7", "quartz8", "quartz9". Python's exceptions (a failed
    assert, a tuple unpacking of the wrong length, int() of a non-numeral)
    are the error cases of a Result. */
module NodeList {
  import opened Wrappers
  import opened Text
  import opened CNumerals
  import Algorithms
  import Config

  /** Python `s.split(c)`: the pieces between the occurrences of c. */
  function PySplit(s: string, c: char): (r: seq<string>)
    ensures |r| > 0
    ensures forall i :: 0 <= i < |r| ==> c !in r[i]
    ensures |r| == 1 <==> c !in s
    ensures Algorithms.Join(r, c) == s
    decreases |s|
  {
    var i := Config.IndexOf(s, c);
    if i == |s| then
      assert s[..i] == s;
      JoinOne(s, c);
      [s]
    else
      var rest := PySplit(s[i + 1..], c);
      PySplitStep(s, c, i, rest);
      [s[..i]] + rest
  }

  lemma JoinOne(p: string, c: char)
    ensures Algorithms.Join([p], c) == p
  {
    assert [p][..0] == [];
  }

  /** The first piece, up to the first separator, put in front of the split
      of the text after it. */
  lemma PySplitStep(s: string, c: char, i: nat, rest: seq<string>)
    requires i < |s| && s[i] == c && c !in s[..i]
    requires |rest| > 0 && forall k :: 0 <= k < |rest| ==> c !in rest[k]
    requires Algorithms.Join(rest, c) == s[i + 1..]
    ensures var r := [s[..i]] + rest;
            (forall k :: 0 <= k < |r| ==> c !in r[k]) && c in s && Algorithms.Join(r, c) == s
  {
    var r := [s[..i]] + rest;
    JoinCons(s[..i], rest, c);
    assert s == s[..i] + [c] + s[i + 1..];
    forall k | 0 <= k < |r| ensures c !in r[k] {
      if k > 0 {
        assert r[k] == rest[k - 1];
      }
    }
  }

  lemma {:induction false} TerminatedCons(p: string, rest: seq<string>, c: char)
    ensures Algorithms.Terminated([p] + rest, c) == p + [c] + Algorithms.Terminated(rest, c)
    decreases |rest|
  {
    var s := [p] + rest;
    if |rest| == 0 {
      assert s[..|s| - 1] == [];
    } else {
      assert s[..|s| - 1] == [p] + rest[..|rest| - 1];
      TerminatedCons(p, rest[..|rest| - 1], c);
    }
  }

  lemma JoinCons(p: string, rest: seq<string>, c: char)
    requires |rest| > 0
    ensures Algorithms.Join([p] + rest, c) == p + [c] + Algorithms.Join(rest, c)
  {
    var s := [p] + rest;
    assert s[..|s| - 1] == [p] + rest[..|rest| - 1];
    TerminatedCons(p, rest[..|rest| - 1], c);
  }

  /** Splitting text without the separator gives it back whole. */
  lemma PySplitNone(p: string, c: char)
    requires c !in p
    ensures PySplit(p, c) == [p]
  {
  }

  /** Splitting cuts at the first separator. */
  lemma PySplitFirst(p: string, c: char, q: string)
    requires c !in p
    ensures PySplit(p + [c] + q, c) == [p] + PySplit(q, c)
  {
    var s := p + [c] + q;
    Config.IndexOfAfterPrefix(p, c, q);
    assert s[..|p|] == p && s[|p| + 1..] == q;
  }

  datatype NodeListError =
    | CommaWithoutBrackets   // the AssertionError of the unbracketed form
    | NotOneBracket          // unpacking split('[') into two names fails
    | NotANumber             // int() of a range bound fails

  /** `range(lo, hi + 1)`, each number appended to the cluster name. */
  function NamedRange(cluster: string, lo: int, hi: int): (r: seq<string>)
    ensures |r| == if hi < lo then 0 else hi - lo + 1
    ensures forall i :: 0 <= i < |r| ==> r[i] == cluster + IntToString(lo + i)
  {
    if hi < lo then [] else seq(hi - lo + 1, i => cluster + IntToString(lo + i))
  }

  /** One comma-separated item: a name suffix, or a range "lo-hi" whose
      bounds pass through int(); anything after a second '-' is ignored. */
  function ExpandItem(cluster: string, item: string): (r: Result<seq<string>, NodeListError>)
    ensures '-' !in item ==> r == Ok([cluster + item])
    ensures r.Err? ==> r.error == NotANumber
    ensures r.Ok? ==> forall j :: 0 <= j < |r.value| ==> |cluster| <= |r.value[j]| && r.value[j][..|cluster|] == cluster
  {
    if '-' !in item then Ok([cluster + item])
    else
      var bounds := PySplit(item, '-');
      match (PyInt(bounds[0]), PyInt(bounds[1]))
      case (Some(lo), Some(hi)) => Ok(NamedRange(cluster, lo, hi))
      case _ => Err(NotANumber)
  }

  /** The items in turn, their names concatenated; the first failing item
      stops the expansion. */
  function ExpandItems(cluster: string, items: seq<string>): (r: Result<seq<string>, NodeListError>)
    ensures r.Ok? <==> forall i :: 0 <= i < |items| ==> ExpandItem(cluster, items[i]).Ok?
    ensures r.Ok? ==> forall j :: 0 <= j < |r.value| ==> |cluster| <= |r.value[j]| && r.value[j][..|cluster|] == cluster
    decreases |items|
  {
    if |items| == 0 then Ok([])
    else
      match ExpandItem(cluster, items[0])
      case Err(e) => Err(e)
      case Ok(names) =>
        assert forall i :: 0 < i < |items| ==> items[i] == items[1..][i - 1];
        match ExpandItems(cluster, items[1..])
        case Err(e) => Err(e)
        case Ok(more) =>
          PrefixedAppend(names, more, cluster);
          Ok(names + more)
  }

  lemma PrefixedAppend(a: seq<string>, b: seq<string>, p: string)
    requires forall j :: 0 <= j < |a| ==> |p| <= |a[j]| && a[j][..|p|] == p
    requires forall j :: 0 <= j < |b| ==> |p| <= |b[j]| && b[j][..|p|] == p
    ensures forall j :: 0 <= j < |a + b| ==> |p| <= |(a + b)[j]| && (a + b)[j][..|p|] == p
  {
    forall j | 0 <= j < |a + b| ensures |p| <= |(a + b)[j]| && (a + b)[j][..|p|] == p {
      if j >= |a| {
        assert (a + b)[j] == b[j - |a|];
      }
    }
  }

  /** `parse_node_list`. */
  function ParseNodeList(s: string): (r: Result<seq<string>, NodeListError>)
    ensures '[' !in s ==> r == if ',' in s then Err(CommaWithoutBrackets) else Ok([s])
  {
    if '[' !in s then
      if ',' in s then Err(CommaWithoutBrackets) else Ok([s])
    else
      var parts := PySplit(s, '[');
      if |parts| != 2 then Err(NotOneBracket)
      else
        var body := Config.CutAt(parts[1], ']');
        ExpandItems(parts[0], PySplit(body, ','))
  }

  /** The bracketed form expands the comma-separated items between the
      brackets; whatever follows ']' plays no part. */
  lemma ParseBracketed(cluster: string, body: string, tail: string)
    requires '[' !in cluster && '[' !in body && ']' !in body && '[' !in tail
    ensures ParseNodeList(cluster + "[" + body + "]" + tail) == ExpandItems(cluster, PySplit(body, ','))
  {
    var s := cluster + "[" + body + "]" + tail;
    var after := body + "]" + tail;
    assert '[' in s by { assert s[|cluster|] == '['; }
    BracketSplit(cluster, body, tail);
    Config.IndexOfAfterPrefix(body, ']', tail);
    assert after == body + [']'] + tail;
    assert after[..|body|] == body;
  }

  /** Splitting at '[' gives the cluster and everything after the bracket. */
  lemma BracketSplit(cluster: string, body: string, tail: string)
    requires '[' !in cluster && '[' !in body && '[' !in tail
    ensures PySplit(cluster + "[" + body + "]" + tail, '[') == [cluster, body + "]" + tail]
  {
    var after := body + "]" + tail;
    BracketText(cluster, body, tail);
    PySplitFirst(cluster, '[', after);
    assert '[' !in after;
    PySplitNone(after, '[');
  }

  lemma BracketText(cluster: string, body: string, tail: string)
    ensures cluster + "[" + body + "]" + tail == cluster + ['['] + (body + "]" + tail)
  {
  }

  /** A range item "lo-hi" names every number from lo to hi inclusive, and
      zeros padding either bound are dropped by int(). */
  lemma ExpandRange(cluster: string, padLo: nat, lo: nat, padHi: nat, hi: nat)
    ensures var item := seq(padLo, _ => '0') + NatToString(lo) + "-" + seq(padHi, _ => '0') + NatToString(hi);
            ExpandItem(cluster, item) == Ok(NamedRange(cluster, lo, hi))
  {
    var a := seq(padLo, _ => '0') + NatToString(lo);
    var b := seq(padHi, _ => '0') + NatToString(hi);
    var item := seq(padLo, _ => '0') + NatToString(lo) + "-" + seq(padHi, _ => '0') + NatToString(hi);
    assert item == a + ['-'] + b;
    NoDash(padLo, lo);
    NoDash(padHi, hi);
    PySplitFirst(a, '-', b);
    PySplitNone(b, '-');
    assert '-' in item by { assert item[|a|] == '-'; }
    PyIntOfDigits(padLo, lo);
    PyIntOfDigits(padHi, hi);
  }

  lemma NoDash(pad: nat, n: nat)
    ensures '-' !in seq(pad, _ => '0') + NatToString(n)
  {
    var s := seq(pad, _ => '0') + NatToString(n);
    forall k | 0 <= k < |s| ensures s[k] != '-' {
      if k >= pad {
        assert s[k] == NatToString(n)[k - pad];
        assert IsDigit(NatToString(n)[k - pad]);
      }
    }
  }

  /** The text of a range item. */
  function RangeItem(lo: nat, hi: nat): string
  {
    NatToString(lo) + "-" + NatToString(hi)
  }

  lemma RangeItemNoComma(lo: nat, hi: nat)
    ensures ',' !in RangeItem(lo, hi)
  {
    var a, b := NatToString(lo), NatToString(hi);
    var range := RangeItem(lo, hi);
    forall k | 0 <= k < |range| ensures range[k] != ',' {
      if k < |a| {
        assert range[k] == a[k] && IsDigit(a[k]);
      } else if k > |a| {
        assert range[k] == b[k - |a| - 1] && IsDigit(b[k - |a| - 1]);
      }
    }
  }

  /** "c[a,lo-hi]" gives c+a and then c+lo through c+hi, in that order. */
  lemma ExpandNameAndRange(cluster: string, name: string, lo: nat, hi: nat)
    requires '[' !in cluster && '-' !in name && ',' !in name && '[' !in name && ']' !in name
    ensures ParseNodeList(cluster + "[" + name + "," + RangeItem(lo, hi) + "]")
            == Ok([cluster + name] + NamedRange(cluster, lo, hi))
  {
    ParseTwoItems(cluster, name, lo, hi);
    ExpandPlainRange(cluster, lo, hi);
    ExpandTwo(cluster, name, RangeItem(lo, hi));
  }

  lemma ExpandPlainRange(cluster: string, lo: nat, hi: nat)
    ensures ExpandItem(cluster, RangeItem(lo, hi)) == Ok(NamedRange(cluster, lo, hi))
  {
    var a, b := NatToString(lo), NatToString(hi);
    SplitRangeItem(lo, hi);
    PyIntOfNat(lo);
    PyIntOfNat(hi);
    assert PySplit(RangeItem(lo, hi), '-') == [a, b];
  }

  /** A range item splits at its dash into the two numerals. */
  lemma SplitRangeItem(lo: nat, hi: nat)
    ensures '-' in RangeItem(lo, hi)
    ensures PySplit(RangeItem(lo, hi), '-') == [NatToString(lo), NatToString(hi)]
  {
    var a, b := NatToString(lo), NatToString(hi);
    DigitsNoDash(a);
    DigitsNoDash(b);
    assert RangeItem(lo, hi) == a + ['-'] + b;
    assert RangeItem(lo, hi)[|a|] == '-';
    PySplitFirst(a, '-', b);
    PySplitNone(b, '-');
  }

  lemma DigitsNoDash(s: string)
    requires AllDigits(s)
    ensures '-' !in s
  {
    forall k | 0 <= k < |s| ensures s[k] != '-' {
      assert IsDigit(s[k]);
    }
  }

  lemma PyIntOfNat(n: nat)
    ensures PyInt(NatToString(n)) == Some(n)
  {
    ScanOfDigits(NatToString(n));
    NatToStringValue(n);
  }

  lemma ParseTwoItems(cluster: string, name: string, lo: nat, hi: nat)
    requires '[' !in cluster && ',' !in name && '[' !in name && ']' !in name
    ensures ParseNodeList(cluster + "[" + name + "," + RangeItem(lo, hi) + "]")
            == ExpandItems(cluster, [name, RangeItem(lo, hi)])
  {
    var range := RangeItem(lo, hi);
    var body := name + [','] + range;
    TwoItemsText(cluster, name, range);
    RangeItemNoBrackets(lo, hi);
    BodyNoBrackets(name, range);
    ParseBracketed(cluster, body, "");
    RangeItemNoComma(lo, hi);
    SplitTwo(name, range);
  }

  lemma TwoItemsText(cluster: string, name: string, range: string)
    ensures cluster + "[" + name + "," + range + "]" == cluster + "[" + (name + [','] + range) + "]" + ""
  {
  }

  /** Two items without commas split at the one between them. */
  lemma SplitTwo(x: string, y: string)
    requires ',' !in x && ',' !in y
    ensures PySplit(x + [','] + y, ',') == [x, y]
  {
    PySplitFirst(x, ',', y);
    PySplitNone(y, ',');
  }

  lemma RangeItemNoBrackets(lo: nat, hi: nat)
    ensures '[' !in RangeItem(lo, hi) && ']' !in RangeItem(lo, hi)
  {
    var a, b := NatToString(lo), NatToString(hi);
    var range := RangeItem(lo, hi);
    forall k | 0 <= k < |range| ensures range[k] != '[' && range[k] != ']' {
      if k < |a| {
        assert range[k] == a[k] && IsDigit(a[k]);
      } else if k > |a| {
        assert range[k] == b[k - |a| - 1] && IsDigit(b[k - |a| - 1]);
      }
    }
  }

  lemma BodyNoBrackets(name: string, range: string)
    requires '[' !in name && ']' !in name && '[' !in range && ']' !in range
    ensures var body := name + [','] + range; '[' !in body && ']' !in body
  {
    var body := name + [','] + range;
    forall k | 0 <= k < |body| ensures body[k] != '[' && body[k] != ']' {
      if k < |name| {
        assert body[k] == name[k];
      } else if k > |name| {
        assert body[k] == range[k - |name| - 1];
      }
    }
  }

  lemma ExpandTwo(cluster: string, x: string, y: string)
    requires '-' !in x && ExpandItem(cluster, y).Ok?
    ensures ExpandItems(cluster, [x, y]) == Ok([cluster + x] + ExpandItem(cluster, y).value)
  {
    var ry := ExpandItem(cluster, y).value;
    assert ExpandItems(cluster, [y]) == Ok(ry + []) by {
      assert [y][1..] == [];
    }
    assert ry + [] == ry;
    var items := [x, y];
    assert items[0] == x && items[1..] == [y];
  }
}
