/** Small container utilities of the Skywing core: splitting a string at a
    character, concatenating sequences, and merging associative containers. */
module Algorithms {

  // ---------------------------------------------------------------------
  // split
  // ---------------------------------------------------------------------

  /** The number of occurrences of c in s. */
  function Count(s: string, c: char): nat
  {
    if |s| == 0 then 0 else Count(s[..|s| - 1], c) + (if s[|s| - 1] == c then 1 else 0)
  }

  lemma {:induction false} CountAppend(s: string, t: string, c: char)
    ensures Count(s + t, c) == Count(s, c) + Count(t, c)
    decreases |t|
  {
    if |t| == 0 {
      assert s + t == s;
    } else {
      assert (s + t)[..|s + t| - 1] == s + t[..|t| - 1];
      CountAppend(s, t[..|t| - 1], c);
    }
  }

  lemma {:induction false} CountAbsent(s: string, c: char)
    ensures c !in s <==> Count(s, c) == 0
    decreases |s|
  {
    if |s| > 0 {
      CountAbsent(s[..|s| - 1], c);
      assert s == s[..|s| - 1] + [s[|s| - 1]];
      if c in s && s[|s| - 1] != c {
        var k :| 0 <= k < |s| && s[k] == c;
        assert s[..|s| - 1][k] == c;
      }
    }
  }

  /** The position of the first c at or after `from`, or |s| when there is
      none (std::string::find, with |s| standing for npos). */
  function FindFrom(s: string, c: char, from: nat): (i: nat)
    ensures from <= |s| ==> from <= i <= |s|
    ensures from > |s| ==> i == |s|
    ensures i < |s| ==> s[i] == c
    ensures forall k :: from <= k < i ==> s[k] != c
    decreases |s| - from
  {
    if from >= |s| then |s|
    else if s[from] == c then from
    else FindFrom(s, c, from + 1)
  }

  /** Each piece followed by the separator. */
  function Terminated(pieces: seq<string>, c: char): string
  {
    if |pieces| == 0 then [] else Terminated(pieces[..|pieces| - 1], c) + pieces[|pieces| - 1] + [c]
  }

  /** The pieces joined with the separator between them. */
  function Join(pieces: seq<string>, c: char): string
    requires |pieces| > 0
  {
    Terminated(pieces[..|pieces| - 1], c) + pieces[|pieces| - 1]
  }

  lemma {:induction false} TerminatedCount(pieces: seq<string>, c: char)
    requires forall i :: 0 <= i < |pieces| ==> c !in pieces[i]
    ensures Count(Terminated(pieces, c), c) == |pieces|
    decreases |pieces|
  {
    if |pieces| > 0 {
      var front := pieces[..|pieces| - 1];
      TerminatedCount(front, c);
      CountAppend(Terminated(front, c) + pieces[|pieces| - 1], [c], c);
      CountAppend(Terminated(front, c), pieces[|pieces| - 1], c);
      CountAbsent(pieces[|pieces| - 1], c);
      assert Count([c], c) == 1 by { assert [c][..0] == []; }
    }
  }

  /** `split(s, c, maxCount)`: cuts s at each c from left to right, except that
      once maxCount - 1 pieces have been cut the rest of s is left whole in the
      last piece (maxCount 0 means no limit). */
  method Split(s: string, c: char, maxCount: nat) returns (pieces: seq<string>)
    ensures |pieces| > 0 && Join(pieces, c) == s
    ensures forall i :: 0 <= i < |pieces| - 1 ==> c !in pieces[i]
    ensures maxCount == 0 ==> c !in pieces[|pieces| - 1]
    ensures |pieces| == if maxCount == 0 || Count(s, c) + 1 <= maxCount then Count(s, c) + 1 else maxCount
  {
    pieces := [];
    var last: nat := 0;
    var pos := FindFrom(s, c, 0);
    while pos < |s|
      invariant last <= pos <= |s|
      invariant Terminated(pieces, c) == s[..last]
      invariant forall i :: 0 <= i < |pieces| ==> c !in pieces[i]
      invariant forall k :: last <= k < pos ==> s[k] != c
      invariant pos < |s| ==> s[pos] == c
      invariant maxCount == 0 || |pieces| + 1 <= maxCount
      decreases |s| - pos
    {
      if |pieces| + 1 == maxCount {
        break;
      }
      var piece := s[last..pos];
      assert c !in piece by {
        forall k | 0 <= k < |piece| ensures piece[k] != c {
          assert piece[k] == s[last + k];
        }
      }
      assert s[..pos + 1] == s[..last] + piece + [c];
      pieces := pieces + [piece];
      assert pieces[..|pieces| - 1] == pieces[..|pieces| - 1];
      last := pos + 1;
      pos := FindFrom(s, c, pos + 1);
    }
    var rest := s[last..];
    assert s == s[..last] + rest;
    TerminatedCount(pieces, c);
    CountAppend(s[..last], rest, c);
    if pos == |s| {
      assert c !in rest by {
        forall k | 0 <= k < |rest| ensures rest[k] != c {
          assert rest[k] == s[last + k];
        }
      }
      CountAbsent(rest, c);
    } else {
      assert rest[pos - last] == c;
      CountAbsent(rest, c);
    }
    var old_pieces := pieces;
    pieces := pieces + [rest];
    assert pieces[..|pieces| - 1] == old_pieces;
  }

  // ---------------------------------------------------------------------
  // concatenate
  // ---------------------------------------------------------------------

  function TotalLength<T>(cs: seq<seq<T>>): nat
  {
    if |cs| == 0 then 0 else TotalLength(cs[..|cs| - 1]) + |cs[|cs| - 1]|
  }

  lemma {:induction false} TotalLengthPrefix<T>(cs: seq<seq<T>>, i: nat)
    requires i < |cs|
    ensures TotalLength(cs[..i]) + |cs[i]| <= TotalLength(cs)
    decreases |cs|
  {
    if i < |cs| - 1 {
      assert cs[..|cs| - 1][..i] == cs[..i];
      TotalLengthPrefix(cs[..|cs| - 1], i);
    } else {
      assert cs[..i] == cs[..|cs| - 1];
    }
  }

  /** `concatenate`: the containers' elements, one container after another. */
  function Concatenate<T>(cs: seq<seq<T>>): (r: seq<T>)
    ensures |r| == TotalLength(cs)
  {
    if |cs| == 0 then [] else Concatenate(cs[..|cs| - 1]) + cs[|cs| - 1]
  }

  /** Container i occupies the slice that starts after the lengths of the
      containers before it. */
  lemma {:induction false} ConcatenateSlices<T>(cs: seq<seq<T>>, i: nat)
    requires i < |cs|
    ensures TotalLength(cs[..i]) + |cs[i]| <= |Concatenate(cs)|
    ensures Concatenate(cs)[TotalLength(cs[..i])..TotalLength(cs[..i]) + |cs[i]|] == cs[i]
    decreases |cs|
  {
    TotalLengthPrefix(cs, i);
    var front := cs[..|cs| - 1];
    var r0 := Concatenate(front);
    if i < |cs| - 1 {
      assert cs[..i] == front[..i];
      assert cs[i] == front[i];
      ConcatenateSlices(front, i);
      var lo := TotalLength(front[..i]);
      assert Concatenate(cs)[lo..lo + |cs[i]|] == r0[lo..lo + |cs[i]|];
    } else {
      assert cs[..i] == front;
    }
  }

  // ---------------------------------------------------------------------
  // merge_associative_containers
  // ---------------------------------------------------------------------

  /** Set `merge`: every element of rhs moves into lhs, except that elements
      lhs already holds stay behind in rhs. */
  function MergeSets<T>(lhs: set<T>, rhs: set<T>): (r: (set<T>, set<T>))
    ensures r.0 == lhs + rhs
    ensures r.1 == lhs * rhs
  {
    (lhs + rhs, rhs * lhs)
  }

  /** The fallback for containers without `merge`: insert everything, then
      empty rhs. */
  function InsertAndClear<T>(lhs: set<T>, rhs: set<T>): (r: (set<T>, set<T>))
    ensures r == (lhs + rhs, {})
  {
    (lhs + rhs, {})
  }

  /** Both ways of merging leave lhs the union of the two containers, and
      nothing is lost: what leaves rhs is in lhs. */
  lemma MergeIsUnion<T>(lhs: set<T>, rhs: set<T>)
    ensures MergeSets(lhs, rhs).0 == InsertAndClear(lhs, rhs).0
    ensures MergeSets(lhs, rhs).0 + MergeSets(lhs, rhs).1 == lhs + rhs
    ensures MergeSets(lhs, rhs).1 <= MergeSets(lhs, rhs).0
  {
  }
}
