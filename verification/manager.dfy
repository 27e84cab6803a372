/** The pure pieces of the Skywing manager: each neighbouring manager's
    list of its own neighbours, the back-off schedule for tag
    requests, the filter that drops tags with enough known publishers, the
    subscription-complete test, and the registration of produced tags. The
    event loop, sockets and clocks are not modelled; the current time is a
    parameter. */
module Manager {
  import opened Wrappers
  import opened CInts
  import opened Types
  import StringOrder

  // ---------------------------------------------------------------------
  // Each neighbouring manager's list of its own neighbours
  // ---------------------------------------------------------------------

  /** The first position whose element is not less than x, scanning left to
      right: what `std::lower_bound` finds on a sorted list, and the
      reference the search below is compared with. */
  function LowerBound(s: seq<MachineID>, x: MachineID): (r: nat)
    ensures r <= |s|
    ensures forall j :: 0 <= j < r ==> StringOrder.Less(s[j], x)
    ensures r < |s| ==> !StringOrder.Less(s[r], x)
    decreases |s|
  {
    if |s| == 0 || !StringOrder.Less(s[0], x) then 0 else 1 + LowerBound(s[1..], x)
  }

  /** Any position with only smaller elements before it and a not-smaller one
      at it is the lower bound. */
  lemma {:induction false} LowerBoundUnique(s: seq<MachineID>, x: MachineID, i: nat)
    requires i <= |s|
    requires forall j :: 0 <= j < i ==> StringOrder.Less(s[j], x)
    requires i < |s| ==> !StringOrder.Less(s[i], x)
    ensures LowerBound(s, x) == i
    decreases |s|
  {
    if i > 0 {
      assert StringOrder.Less(s[0], x);
      LowerBoundUnique(s[1..], x, i - 1);
    }
  }

  /** In a sorted list nothing from the lower bound on is less than x. */
  lemma NotLessAfter(s: seq<MachineID>, x: MachineID, i: nat, j: nat)
    requires StringOrder.Sorted(s) && i <= j < |s|
    requires !StringOrder.Less(s[i], x)
    ensures !StringOrder.Less(s[j], x)
  {
    if StringOrder.Less(s[j], x) && s[i] != s[j] {
      StringOrder.LessTransitive(s[i], s[j], x);
    }
  }

  /** `std::lower_bound` over [first, first + len) as the C++ library runs it
      on any list, sorted or not: look at the middle element, step past it
      when it is less than x, and otherwise keep the lower half. */
  function SearchFrom(s: seq<MachineID>, x: MachineID, first: nat, len: nat): (r: nat)
    requires first + len <= |s|
    ensures first <= r <= first + len
    decreases len
  {
    if len == 0 then first
    else
      var half := len / 2;
      if StringOrder.Less(s[first + half], x) then SearchFrom(s, x, first + half + 1, len - half - 1)
      else SearchFrom(s, x, first, half)
  }

  /** `std::lower_bound` over the whole list. */
  function Search(s: seq<MachineID>, x: MachineID): (r: nat)
    ensures r <= |s|
  {
    SearchFrom(s, x, 0, |s|)
  }

  /** Once an element is not less than x, no later one is: what a sorted
      list guarantees of the search for x (NotLessAfter). */
  predicate LessPrefix(s: seq<MachineID>, x: MachineID)
  {
    forall i, j :: 0 <= i <= j < |s| && !StringOrder.Less(s[i], x) ==> !StringOrder.Less(s[j], x)
  }

  /** For each element, whether it is less than x. */
  function Below(s: seq<MachineID>, x: MachineID): (b: seq<bool>)
    ensures |b| == |s|
    ensures forall i :: 0 <= i < |s| ==> (b[i] <==> StringOrder.Less(s[i], x))
  {
    seq(|s|, i requires 0 <= i < |s| => StringOrder.Less(s[i], x))
  }

  /** The halving search run on the answers to "is it less than x". */
  function SearchBits(b: seq<bool>, first: nat, len: nat): (r: nat)
    requires first + len <= |b|
    ensures first <= r <= first + len
    decreases len
  {
    if len == 0 then first
    else
      var half := len / 2;
      if b[first + half] then SearchBits(b, first + half + 1, len - half - 1)
      else SearchBits(b, first, half)
  }

  /** The search over the list looks only at those answers. */
  lemma {:induction false} SearchFromBits(s: seq<MachineID>, x: MachineID, first: nat, len: nat)
    requires first + len <= |s|
    ensures SearchFrom(s, x, first, len) == SearchBits(Below(s, x), first, len)
    decreases len
  {
    if len > 0 {
      var half := len / 2;
      assert Below(s, x)[first + half] == StringOrder.Less(s[first + half], x);
      if StringOrder.Less(s[first + half], x) {
        SearchFromBits(s, x, first + half + 1, len - half - 1);
      } else {
        SearchFromBits(s, x, first, half);
      }
    }
  }

  /** When the answers are true exactly before position k, and k lies in
      the range searched, the halving search finds k. */
  lemma {:induction false} SearchBitsCut(b: seq<bool>, k: nat, first: nat, len: nat)
    requires first + len <= |b| && first <= k <= first + len
    requires forall j :: 0 <= j < |b| ==> (b[j] <==> j < k)
    ensures SearchBits(b, first, len) == k
    decreases len
  {
    if len > 0 {
      var half := len / 2;
      if b[first + half] {
        SearchBitsCut(b, k, first + half + 1, len - half - 1);
      } else {
        SearchBitsCut(b, k, first, half);
      }
    }
  }

  /** When the elements less than x come first, the halving search finds
      the lower bound. */
  lemma SearchFromSorted(s: seq<MachineID>, x: MachineID)
    requires LessPrefix(s, x)
    ensures Search(s, x) == LowerBound(s, x)
  {
    var k := LowerBound(s, x);
    var b := Below(s, x);
    forall j | 0 <= j < |b| ensures b[j] <==> j < k {
      if j >= k { assert !StringOrder.Less(s[k], x); }
    }
    SearchFromBits(s, x, 0, |s|);
    SearchBitsCut(b, k, 0, |s|);
  }

  /** A sorted list puts the elements less than x first. */
  lemma SortedLessPrefix(s: seq<MachineID>, x: MachineID)
    requires StringOrder.Sorted(s)
    ensures LessPrefix(s, x)
  {
    forall i, j | 0 <= i <= j < |s| && !StringOrder.Less(s[i], x)
      ensures !StringOrder.Less(s[j], x)
    {
      NotLessAfter(s, x, i, j);
    }
  }

  /** On a sorted list `std::lower_bound` is the first position not less
      than x. */
  lemma SearchIsLowerBound(s: seq<MachineID>, x: MachineID)
    requires StringOrder.Sorted(s)
    ensures Search(s, x) == LowerBound(s, x)
  {
    SortedLessPrefix(s, x);
    SearchFromSorted(s, x);
  }

  /** `has_neighbor`: search, then a look at the element found. A yes is
      always right; a no is right on a sorted list (HasNeighborSorted). */
  function HasNeighbor(s: seq<MachineID>, id: MachineID): (b: bool)
    ensures b ==> id in s
  {
    var loc := Search(s, id);
    loc < |s| && s[loc] == id
  }

  /** On a sorted list `has_neighbor` is membership. */
  lemma HasNeighborSorted(s: seq<MachineID>, id: MachineID)
    requires StringOrder.Sorted(s)
    ensures HasNeighbor(s, id) <==> id in s
  {
    SearchIsLowerBound(s, id);
    var loc := LowerBound(s, id);
    if id in s {
      var k :| 0 <= k < |s| && s[k] == id;
      StringOrder.LessIrreflexive(id);
      assert loc <= k;
      assert loc < k ==> StringOrder.LessEq(s[loc], s[k]);
    }
  }

  /** The neighbour list is strictly increasing: sorted and duplicate-free. */
  predicate Neighbors(s: seq<MachineID>)
  {
    StringOrder.StrictlySorted(s)
  }

  lemma NeighborsSorted(s: seq<MachineID>)
    requires Neighbors(s)
    ensures StringOrder.Sorted(s)
  {
  }

  /** On a neighbour list the search is the lower bound. */
  lemma SearchOnNeighbors(s: seq<MachineID>, x: MachineID)
    requires Neighbors(s)
    ensures Search(s, x) == LowerBound(s, x)
  {
    NeighborsSorted(s);
    SearchIsLowerBound(s, x);
  }

  /** An ExternalManager starts from the neighbour list of the greeting,
      which is the sender's `unordered_map` of neighbours read out in its
      hash order, and keeps it as it comes. On such a list `has_neighbor`
      can miss a listed id; the NewNeighbor handler, which is meant to
      ignore a repeated id, then lists it twice; and the search is not the
      lower bound. */
  lemma HasNeighborMissesUnsorted()
    ensures "a" in ["b", "a"] && !HasNeighbor(["b", "a"], "a")
    ensures NewNeighbor(["b", "a"], "a") == ["a", "b", "a"]
    ensures Search(["c", "a", "b"], "b") == 2 && LowerBound(["c", "a", "b"], "b") == 0
  {
    var s: seq<MachineID> := ["b", "a"];
    StringOrder.LessIrreflexive("a");
    assert !StringOrder.Less(s[0], "a");
    assert SearchFrom(s, "a", 0, 1) == 0;
    assert Search(s, "a") == 0;
    var t: seq<MachineID> := ["c", "a", "b"];
    assert StringOrder.Less(t[1], "b");
    StringOrder.LessIrreflexive("b");
    assert !StringOrder.Less(t[0], "b");
    assert SearchFrom(t, "b", 2, 1) == 2;
  }

  /** The corrected ExternalManager: it sorts the greeting's list, which it
      may, since the keys of a map are distinct. From then on the handlers
      keep the list strictly increasing (NewNeighborKeepsOrder,
      RemoveNeighborKeepsOrder). */
  function GreetingNeighbors(keys: seq<MachineID>): (s: seq<MachineID>)
    ensures StringOrder.Sorted(s) && multiset(s) == multiset(keys)
    ensures (forall i, j :: 0 <= i < j < |keys| ==> keys[i] != keys[j]) ==> Neighbors(s)
  {
    var s := StringOrder.Sort(keys);
    DistinctSorted(keys, s);
    s
  }

  /** A sorted permutation of a duplicate-free list is strictly increasing. */
  lemma DistinctSorted(keys: seq<MachineID>, s: seq<MachineID>)
    requires StringOrder.Sorted(s) && multiset(s) == multiset(keys)
    ensures (forall i, j :: 0 <= i < j < |keys| ==> keys[i] != keys[j]) ==> Neighbors(s)
  {
    if forall i, j :: 0 <= i < j < |keys| ==> keys[i] != keys[j] {
      forall i, j | 0 <= i < j < |s| ensures s[i] != s[j] {
        if s[i] == s[j] {
          MultisetTwice(s, i, j);
          var k :| 0 <= k < |keys| && keys[k] == s[i];
          MultisetOnce(keys, k);
        }
      }
      StringOrder.SortedDistinctIsStrict(s);
    }
  }

  /** Two positions holding x give x a multiplicity of at least two. */
  lemma MultisetTwice(s: seq<MachineID>, i: nat, j: nat)
    requires i < j < |s| && s[i] == s[j]
    ensures multiset(s)[s[i]] >= 2
  {
    assert s == s[..i] + [s[i]] + s[i + 1..j] + [s[j]] + s[j + 1..];
  }

  /** In a duplicate-free list each element occurs once. */
  lemma {:induction false} MultisetOnce(s: seq<MachineID>, k: nat)
    requires k < |s| && forall i, j :: 0 <= i < j < |s| ==> s[i] != s[j]
    ensures multiset(s)[s[k]] == 1
  {
    assert s == s[..k] + [s[k]] + s[k + 1..];
    assert s[k] !in s[..k] && s[k] !in s[k + 1..];
  }

  /** With the corrected greeting `has_neighbor` answers membership in the
      sender's neighbour map. */
  lemma GreetingHasNeighbor(keys: seq<MachineID>, id: MachineID)
    ensures HasNeighbor(GreetingNeighbors(keys), id) <==> id in keys
  {
    var s := GreetingNeighbors(keys);
    HasNeighborSorted(s, id);
    assert id in s <==> id in multiset(s);
  }

  /** Elements from the lower bound on are greater than x, once x itself has
      been ruled out at the lower bound. */
  lemma GreaterAfter(s: seq<MachineID>, x: MachineID, j: nat)
    requires Neighbors(s)
    requires LowerBound(s, x) <= j < |s| && s[LowerBound(s, x)] != x
    ensures StringOrder.Less(x, s[j])
  {
    var loc := LowerBound(s, x);
    StringOrder.LessTotal(x, s[loc]);
    if j > loc {
      StringOrder.LessTransitive(x, s[loc], s[j]);
    }
  }

  /** Inserting x between the smaller and the greater elements keeps the
      list strictly increasing. */
  lemma InsertKeepsOrder(s: seq<MachineID>, i: nat, x: MachineID)
    requires Neighbors(s) && i <= |s|
    requires forall j :: 0 <= j < i ==> StringOrder.Less(s[j], x)
    requires forall j :: i <= j < |s| ==> StringOrder.Less(x, s[j])
    ensures Neighbors(s[..i] + [x] + s[i..])
  {
    var r := s[..i] + [x] + s[i..];
    forall a, b | 0 <= a < b < |r| ensures StringOrder.Less(r[a], r[b]) {
      if a < i && b > i {
        StringOrder.LessTransitive(s[a], x, s[b - 1]);
      }
    }
  }

  /** The NewNeighbor handler: insert at the search position unless the id
      is found there, since a machine that reconnects repeats its id. The
      list gains the id and nothing else, by one entry exactly when
      `has_neighbor` said no. */
  function NewNeighbor(s: seq<MachineID>, id: MachineID): (r: seq<MachineID>)
    ensures forall y :: y in r <==> y in s || y == id
    ensures |r| == if HasNeighbor(s, id) then |s| else |s| + 1
  {
    var loc := Search(s, id);
    if loc == |s| || s[loc] != id then
      assert s == s[..loc] + s[loc..];
      s[..loc] + [id] + s[loc..]
    else
      s
  }

  /** On a neighbour list NewNeighbor keeps the list strictly increasing and
      leaves it alone when the id is already listed. */
  lemma NewNeighborKeepsOrder(s: seq<MachineID>, id: MachineID)
    requires Neighbors(s)
    ensures Neighbors(NewNeighbor(s, id))
    ensures id in s ==> NewNeighbor(s, id) == s
  {
    SearchOnNeighbors(s, id);
    var loc := LowerBound(s, id);
    if loc == |s| || s[loc] != id {
      InsertAtLowerBound(s, id);
    }
  }

  /** Inserting an id at its lower bound, when it is not already there,
      keeps the list strictly increasing and adds just that id. */
  lemma InsertAtLowerBound(s: seq<MachineID>, id: MachineID)
    requires Neighbors(s)
    requires LowerBound(s, id) == |s| || s[LowerBound(s, id)] != id
    ensures var loc := LowerBound(s, id);
            Neighbors(s[..loc] + [id] + s[loc..]) && id !in s
  {
    var loc := LowerBound(s, id);
    forall j | loc <= j < |s| ensures StringOrder.Less(id, s[j]) {
      GreaterAfter(s, id, j);
    }
    InsertKeepsOrder(s, loc, id);
    forall j | 0 <= j < |s| ensures s[j] != id {
      StringOrder.LessIrreflexive(id);
    }
  }

  /** The RemoveNeighbor handler as written: it swaps the element at the
      search position with the last one and pops, whether or not that
      element is the id. */
  function RemoveNeighborAsWritten(s: seq<MachineID>, id: MachineID): seq<MachineID>
  {
    var loc := Search(s, id);
    if loc == |s| then s
    else
      var last := |s| - 1;
      var swapped := s[loc := s[last]][last := s[loc]];
      swapped[..last]
  }

  /** The as-written handler drops the element at the search position,
      whatever it is; on a duplicate-free list the list shrinks by one
      whenever the search stops before the end. */
  lemma RemoveNeighborAsWrittenDrops(s: seq<MachineID>, id: MachineID)
    requires Neighbors(s) && Search(s, id) < |s|
    ensures var loc := Search(s, id);
            var r := RemoveNeighborAsWritten(s, id);
            |r| == |s| - 1 && s[loc] !in r
            && forall y :: y in s && y != s[loc] ==> y in r
  {
    var loc := Search(s, id);
    var last := |s| - 1;
    var r := RemoveNeighborAsWritten(s, id);
    var swapped := s[loc := s[last]][last := s[loc]];
    assert r == swapped[..last];
    StringOrder.LessIrreflexive(s[loc]);
    forall k | 0 <= k < |r| ensures r[k] != s[loc] {
      if k == loc {
        assert r[k] == s[last];
      } else {
        assert r[k] == s[k];
      }
    }
    forall y | y in s && y != s[loc] ensures y in r {
      var k :| 0 <= k < |s| && s[k] == y;
      if k == last {
        assert r[loc] == y;
      } else {
        assert r[k] == y;
      }
    }
  }

  /** Removing an id that is absent drops its successor, and removing the
      first of three leaves the list out of order. */
  lemma RemoveNeighborAsWrittenWrong()
    ensures RemoveNeighborAsWritten(["a", "c"], "b") == ["a"]
    ensures RemoveNeighborAsWritten(["a", "b", "c"], "a") == ["c", "b"]
    ensures !Neighbors(["c", "b"])
  {
    var s1: seq<MachineID> := ["a", "c"];
    assert StringOrder.Less(s1[0], "b") && !StringOrder.Less(s1[1], "b");
    assert SearchFrom(s1, "b", 1, 0) == 1;
    assert Search(s1, "b") == SearchFrom(s1, "b", 0, 1) == 1;
    assert s1[1 := s1[1]][1 := s1[1]][..1] == ["a"];
    var s2: seq<MachineID> := ["a", "b", "c"];
    StringOrder.LessIrreflexive("a");
    assert !StringOrder.Less(s2[0], "a") && !StringOrder.Less(s2[1], "a");
    assert Search(s2, "a") == SearchFrom(s2, "a", 0, 1) == SearchFrom(s2, "a", 0, 0) == 0;
    assert s2[0 := s2[2]][2 := s2[0]][..2] == ["c", "b"];
    var s3: seq<MachineID> := ["c", "b"];
    assert !StringOrder.Less(s3[0], s3[1]);
  }

  /** RemoveNeighbor as intended: erase the element at the search position
      when it is the id, and otherwise leave the list alone. Nothing is
      added, and the list loses one entry exactly when `has_neighbor` says
      yes. */
  function RemoveNeighbor(s: seq<MachineID>, id: MachineID): (r: seq<MachineID>)
    ensures forall y :: y in r ==> y in s
    ensures |r| == if HasNeighbor(s, id) then |s| - 1 else |s|
  {
    var loc := Search(s, id);
    if loc < |s| && s[loc] == id then
      assert forall y :: y in s[..loc] + s[loc + 1..] ==> y in s;
      s[..loc] + s[loc + 1..]
    else
      s
  }

  /** On a neighbour list RemoveNeighbor keeps the list strictly increasing
      and removes exactly the id. */
  lemma RemoveNeighborKeepsOrder(s: seq<MachineID>, id: MachineID)
    requires Neighbors(s)
    ensures Neighbors(RemoveNeighbor(s, id))
    ensures forall y :: y in RemoveNeighbor(s, id) <==> y in s && y != id
    ensures id !in s ==> RemoveNeighbor(s, id) == s
  {
    SearchOnNeighbors(s, id);
    var loc := LowerBound(s, id);
    if loc < |s| && s[loc] == id {
      EraseKeepsOrder(s, loc);
    } else {
      forall j | 0 <= j < |s| ensures s[j] != id {
        StringOrder.LessIrreflexive(id);
        if j >= loc {
          GreaterAfter(s, id, j);
        }
      }
    }
  }

  /** Erasing position i keeps the list strictly increasing and removes
      exactly the element there. */
  lemma EraseKeepsOrder(s: seq<MachineID>, i: nat)
    requires Neighbors(s) && i < |s|
    ensures Neighbors(s[..i] + s[i + 1..])
    ensures forall y :: y in s[..i] + s[i + 1..] <==> y in s && y != s[i]
  {
    var r := s[..i] + s[i + 1..];
    forall a, b | 0 <= a < b < |r| ensures StringOrder.Less(r[a], r[b]) {
      var a' := if a < i then a else a + 1;
      var b' := if b < i then b else b + 1;
      assert r[a] == s[a'] && r[b] == s[b'];
    }
    forall y | y in s && y != s[i] ensures y in r {
      var k :| 0 <= k < |s| && s[k] == y;
      if k < i {
        assert r[k] == y;
      } else {
        assert r[k - 1] == y;
      }
    }
    forall k | 0 <= k < |r| ensures r[k] != s[i] {
      StringOrder.LessIrreflexive(s[i]);
      if k < i {
        assert r[k] == s[k];
      } else {
        assert r[k] == s[k + 1];
      }
    }
  }

  /** Adding a new neighbour and then removing it restores the list. */
  lemma RemoveUndoesNew(s: seq<MachineID>, id: MachineID)
    requires Neighbors(s) && id !in s
    ensures RemoveNeighbor(NewNeighbor(s, id), id) == s
  {
    SearchOnNeighbors(s, id);
    var loc := LowerBound(s, id);
    var t := s[..loc] + [id] + s[loc..];
    assert NewNeighbor(s, id) == t;
    SearchInserted(s, id);
    assert RemoveNeighbor(t, id) == t[..loc] + t[loc + 1..];
    assert t[..loc] == s[..loc] && t[loc + 1..] == s[loc..];
    assert s[..loc] + s[loc..] == s;
  }

  /** After inserting id at its lower bound, the search for id stops at the
      inserted id. */
  lemma SearchInserted(s: seq<MachineID>, id: MachineID)
    requires Neighbors(s) && id !in s
    ensures var loc := LowerBound(s, id);
            var t := s[..loc] + [id] + s[loc..];
            Search(t, id) == loc && t[loc] == id
  {
    var loc := LowerBound(s, id);
    InsertAtLowerBound(s, id);
    var t := s[..loc] + [id] + s[loc..];
    forall j | 0 <= j < loc ensures StringOrder.Less(t[j], id) {
      assert t[j] == s[j];
    }
    StringOrder.LessIrreflexive(id);
    SearchOnNeighbors(t, id);
    LowerBoundUnique(t, id, loc);
  }

  /** The lower bound of id in t is loc when t agrees with s up to loc, s
      has id at loc, and what t has at loc is greater than id. */
  lemma LowerBoundPrefix(s: seq<MachineID>, t: seq<MachineID>, loc: nat, id: MachineID)
    requires Neighbors(s) && loc < |s| && s[loc] == id && LowerBound(s, id) == loc
    requires |t| + 1 == |s| && t[..loc] == s[..loc]
    requires loc < |t| ==> t[loc] == s[loc + 1]
    ensures LowerBound(t, id) == loc
  {
    forall j | 0 <= j < loc ensures StringOrder.Less(t[j], id) {
      assert t[j] == t[..loc][j] == s[..loc][j] == s[j];
    }
    if loc < |t| {
      assert StringOrder.Less(s[loc], s[loc + 1]);
      StringOrder.LessAsymmetric(id, t[loc]);
    }
    LowerBoundUnique(t, id, loc);
  }

  /** Removing a present neighbour and then adding it back restores the
      list. */
  lemma NewUndoesRemove(s: seq<MachineID>, id: MachineID)
    requires Neighbors(s) && id in s
    ensures NewNeighbor(RemoveNeighbor(s, id), id) == s
  {
    var k :| 0 <= k < |s| && s[k] == id;
    LowerBoundOfMember(s, k);
    SearchOnNeighbors(s, id);
    EraseKeepsOrder(s, k);
    var t := RemoveNeighbor(s, id);
    assert t == s[..k] + s[k + 1..];
    assert t[..k] == s[..k] && t[k..] == s[k + 1..];
    LowerBoundPrefix(s, t, k, id);
    assert k < |t| ==> t[k] == s[k + 1];
    ReinsertAt(s, t, k, id);
  }

  /** Inserting id at position k of t, where t is s without its element k,
      gives s back. */
  lemma ReinsertAt(s: seq<MachineID>, t: seq<MachineID>, k: nat, id: MachineID)
    requires Neighbors(s) && Neighbors(t) && k < |s| && s[k] == id
    requires |t| + 1 == |s| && t[..k] == s[..k] && t[k..] == s[k + 1..]
    requires LowerBound(t, id) == k
    ensures NewNeighbor(t, id) == s
  {
    SearchOnNeighbors(t, id);
    if k < |t| {
      assert t[k] == s[k + 1];
      assert StringOrder.Less(s[k], s[k + 1]);
      StringOrder.LessIrreflexive(id);
    }
    assert s == s[..k] + [id] + s[k + 1..];
  }

  /** A listed neighbour's lower bound is its own position. */
  lemma LowerBoundOfMember(s: seq<MachineID>, k: nat)
    requires Neighbors(s) && k < |s|
    ensures LowerBound(s, s[k]) == k
  {
    StringOrder.LessIrreflexive(s[k]);
    LowerBoundUnique(s, s[k], k);
  }

  // ---------------------------------------------------------------------
  // Back-off for tag requests
  // ---------------------------------------------------------------------

  /** The delays, in milliseconds, before the next request for tags. */
  const BackoffTimes: seq<nat> := [20, 40, 80, 160, 320, 500, 750, 1000, 2000, 5000]

  /** The delay for a counter value: the table entry, or the last entry once
      the counter has run past the table. */
  function BackoffDelay(counter: U8): (ms: nat)
    ensures counter < |BackoffTimes| ==> ms == BackoffTimes[counter]
    ensures counter >= |BackoffTimes| ==> ms == 5000
  {
    if counter >= |BackoffTimes| then BackoffTimes[|BackoffTimes| - 1] else BackoffTimes[counter]
  }

  /** The table never decreases, so a larger counter never waits less. */
  lemma BackoffMonotone(c1: U8, c2: U8)
    requires c1 <= c2
    ensures 20 <= BackoffDelay(c1) <= BackoffDelay(c2) <= 5000
  {
  }

  /** `calc_next_request_time`, with the clock's reading as a parameter. */
  function NextRequestTime(now: int, counter: U8): (t: int)
    ensures now + 20 <= t <= now + 5000
  {
    now + BackoffDelay(counter)
  }

  /** The back-off state: the uint8 counter and the time of the next
      request. */
  datatype Backoff = Backoff(counter: U8, requestTime: int)

  function ResetBackoff(now: int): (b: Backoff)
    ensures b.counter == 0 && b.requestTime == now + 20
  {
    Backoff(0, NextRequestTime(now, 0))
  }

  /** `++backoff_counter_` wraps the uint8 counter. */
  function IncreaseBackoff(b: Backoff, now: int): (r: Backoff)
    ensures r.counter == (b.counter + 1) % Two8
    ensures r.requestTime == now + BackoffDelay(r.counter)
  {
    var c := Inc8(b.counter);
    Backoff(c, NextRequestTime(now, c))
  }

  /** After 255 increases the counter wraps, and the 256th increase takes
      the delay back to the shortest one. */
  lemma BackoffWraps(b: Backoff, now: int)
    requires b.counter == Two8 - 1
    ensures IncreaseBackoff(b, now).counter == 0
    ensures IncreaseBackoff(b, now).requestTime == now + 20
  {
  }

  // ---------------------------------------------------------------------
  // Publisher bookkeeping
  // ---------------------------------------------------------------------

  /** `PublisherInfo`: a publisher is an address together with a machine,
      and two are the same only when both agree. */
  datatype PublisherInfo = PublisherInfo(address: string, machine: MachineID)

  /** The publisher state the filters consult: the tags this manager's jobs
      produce, with their self-subscription counts, the known external
      publishers of each tag, and the machine each subscribed tag is served
      from. */
  datatype Publishers = Publishers(
    selfSubCount: map<TagID, nat>,
    publishersForTag: map<TagID, set<PublisherInfo>>,
    tagToMachine: map<TagID, MachineID>)

  /** The number of sources known for a tag: external publishers, counted as
      (address, machine) pairs, plus one when a local job produces it. */
  function KnownSources(p: Publishers, tag: TagID): nat
  {
    (if tag in p.publishersForTag then |p.publishersForTag[tag]| else 0)
    + (if tag in p.selfSubCount then 1 else 0)
  }

  predicate StillNeeded(p: Publishers, tag: TagID, need: U8)
  {
    KnownSources(p, tag) < need
  }

  /** `remove_tags_with_enough_publishers`: keeps, in order, the (tag,
      needed) pairs that still lack publishers. The two columns are walked
      in step and have equal length. */
  function RemoveTagsWithEnoughPublishers(p: Publishers, tags: seq<TagID>, needed: seq<U8>)
    : (r: (seq<TagID>, seq<U8>))
    requires |tags| == |needed|
    ensures |r.0| == |r.1| <= |tags|
    ensures forall i :: 0 <= i < |r.0| ==> StillNeeded(p, r.0[i], r.1[i])
    decreases |tags|
  {
    if |tags| == 0 then ([], [])
    else
      var rest := RemoveTagsWithEnoughPublishers(p, tags[1..], needed[1..]);
      if StillNeeded(p, tags[0], needed[0]) then ([tags[0]] + rest.0, [needed[0]] + rest.1)
      else rest
  }

  /** Every pair kept is a pair of the input. */
  lemma {:induction false} RemoveTagsKeepsInputPairs(p: Publishers, tags: seq<TagID>, needed: seq<U8>, i: nat)
    requires |tags| == |needed|
    requires i < |RemoveTagsWithEnoughPublishers(p, tags, needed).0|
    ensures var r := RemoveTagsWithEnoughPublishers(p, tags, needed);
            exists j :: 0 <= j < |tags| && tags[j] == r.0[i] && needed[j] == r.1[i]
    decreases |tags|
  {
    var r := RemoveTagsWithEnoughPublishers(p, tags, needed);
    var rest := RemoveTagsWithEnoughPublishers(p, tags[1..], needed[1..]);
    if StillNeeded(p, tags[0], needed[0]) && i == 0 {
      assert tags[0] == r.0[0] && needed[0] == r.1[0];
    } else {
      var i' := if StillNeeded(p, tags[0], needed[0]) then i - 1 else i;
      assert r.0[i] == rest.0[i'] && r.1[i] == rest.1[i'];
      RemoveTagsKeepsInputPairs(p, tags[1..], needed[1..], i');
      var j :| 0 <= j < |tags[1..]| && tags[1..][j] == rest.0[i'] && needed[1..][j] == rest.1[i'];
      assert tags[j + 1] == r.0[i] && needed[j + 1] == r.1[i];
    }
  }

  /** The filtered columns hold the pair (tag, need) at some position. */
  predicate KeptAt(r: (seq<TagID>, seq<U8>), tag: TagID, need: U8)
  {
    exists i :: 0 <= i < |r.0| && i < |r.1| && r.0[i] == tag && r.1[i] == need
  }

  /** Every input pair that still lacks publishers is kept. */
  lemma {:induction false} RemoveTagsKeepsNeeded(p: Publishers, tags: seq<TagID>, needed: seq<U8>, j: nat)
    requires |tags| == |needed| && j < |tags|
    requires StillNeeded(p, tags[j], needed[j])
    ensures KeptAt(RemoveTagsWithEnoughPublishers(p, tags, needed), tags[j], needed[j])
    decreases |tags|
  {
    var r := RemoveTagsWithEnoughPublishers(p, tags, needed);
    var rest := RemoveTagsWithEnoughPublishers(p, tags[1..], needed[1..]);
    if j == 0 {
      assert r.0[0] == tags[0] && r.1[0] == needed[0];
    } else {
      assert tags[1..][j - 1] == tags[j] && needed[1..][j - 1] == needed[j];
      RemoveTagsKeepsNeeded(p, tags[1..], needed[1..], j - 1);
      var i :| 0 <= i < |rest.0| && rest.0[i] == tags[j] && rest.1[i] == needed[j];
      if StillNeeded(p, tags[0], needed[0]) {
        assert r.0[i + 1] == rest.0[i] && r.1[i + 1] == rest.1[i];
      } else {
        assert r == rest;
      }
    }
  }

  /** Filtering twice removes nothing more. */
  lemma {:induction false} RemoveTagsIdempotent(p: Publishers, tags: seq<TagID>, needed: seq<U8>)
    requires |tags| == |needed|
    ensures var r := RemoveTagsWithEnoughPublishers(p, tags, needed);
            RemoveTagsWithEnoughPublishers(p, r.0, r.1) == r
    decreases |tags|
  {
    if |tags| > 0 {
      RemoveTagsIdempotent(p, tags[1..], needed[1..]);
      var rest := RemoveTagsWithEnoughPublishers(p, tags[1..], needed[1..]);
      if StillNeeded(p, tags[0], needed[0]) {
        var r := ([tags[0]] + rest.0, [needed[0]] + rest.1);
        assert r.0[0] == tags[0] && r.1[0] == needed[0];
        assert r.0[1..] == rest.0 && r.1[1..] == rest.1;
        assert RemoveTagsWithEnoughPublishers(p, r.0, r.1)
            == ([r.0[0]] + RemoveTagsWithEnoughPublishers(p, r.0[1..], r.1[1..]).0,
                [r.1[0]] + RemoveTagsWithEnoughPublishers(p, r.0[1..], r.1[1..]).1);
      }
    }
  }

  /** One machine known at two addresses counts as two publishers, so a tag
      needing two is dropped. */
  lemma TwoAddressesCountTwice(tag: TagID, machine: MachineID)
    ensures var p := Publishers(map[], map[tag := {PublisherInfo("10.0.0.1:20000", machine),
                                                    PublisherInfo("10.0.0.2:20000", machine)}], map[]);
            KnownSources(p, tag) == 2
            && RemoveTagsWithEnoughPublishers(p, [tag], [2]) == ([], [])
  {
    var a := PublisherInfo("10.0.0.1:20000", machine);
    var b := PublisherInfo("10.0.0.2:20000", machine);
    assert a != b;
    assert |{a, b}| == 2;
  }

  /** `subscribe_is_done`: every required tag is produced locally or already
      has a machine serving it. */
  method SubscribeIsDone(p: Publishers, required: seq<TagID>) returns (done: bool)
    ensures done <==> forall i :: 0 <= i < |required| ==>
                        required[i] in p.selfSubCount || required[i] in p.tagToMachine
  {
    var i := 0;
    while i < |required|
      invariant i <= |required|
      invariant forall j :: 0 <= j < i ==> required[j] in p.selfSubCount || required[j] in p.tagToMachine
    {
      var tag := required[i];
      if tag !in p.selfSubCount && tag !in p.tagToMachine {
        return false;
      }
      i := i + 1;
    }
    return true;
  }

  /** Two tags of the list clash when a tag appears twice or is already
      produced. */
  predicate ReportClashes(produced: map<TagID, nat>, tags: seq<TagID>)
  {
    exists i :: 0 <= i < |tags| && (tags[i] in produced || exists j :: 0 <= j < i && tags[j] == tags[i])
  }

  /** A clash in a list whose head is new is a clash in the rest once the
      head is entered. */
  lemma ClashesStep(produced: map<TagID, nat>, tags: seq<TagID>)
    requires |tags| > 0 && tags[0] !in produced
    ensures ReportClashes(produced, tags) <==> ReportClashes(produced[tags[0] := 0], tags[1..])
  {
    if ReportClashes(produced, tags) {
      ClashesForward(produced, tags);
    }
    if ReportClashes(produced[tags[0] := 0], tags[1..]) {
      ClashesBack(produced, tags);
    }
  }

  lemma ClashesForward(produced: map<TagID, nat>, tags: seq<TagID>)
    requires |tags| > 0 && tags[0] !in produced
    requires ReportClashes(produced, tags)
    ensures ReportClashes(produced[tags[0] := 0], tags[1..])
  {
    var rest := tags[1..];
    var i :| 0 <= i < |tags| && (tags[i] in produced || exists j :: 0 <= j < i && tags[j] == tags[i]);
    assert i > 0;
    assert rest[i - 1] == tags[i];
    if tags[i] !in produced {
      var j :| 0 <= j < i && tags[j] == tags[i];
      if j == 0 {
        assert rest[i - 1] in produced[tags[0] := 0];
      } else {
        assert rest[j - 1] == rest[i - 1];
      }
    }
  }

  lemma ClashesBack(produced: map<TagID, nat>, tags: seq<TagID>)
    requires |tags| > 0 && tags[0] !in produced
    requires ReportClashes(produced[tags[0] := 0], tags[1..])
    ensures ReportClashes(produced, tags)
  {
    var rest := tags[1..];
    var i :| 0 <= i < |rest| && (rest[i] in produced[tags[0] := 0]
                                || exists j :: 0 <= j < i && rest[j] == rest[i]);
    assert tags[i + 1] == rest[i];
    if rest[i] == tags[0] {
      assert tags[0] == tags[i + 1];
    } else if rest[i] !in produced {
      var j :| 0 <= j < i && rest[j] == rest[i];
      assert tags[j + 1] == tags[i + 1];
    }
  }

  /** The tags of a list: its head and the tags of its rest. */
  lemma TagSetStep(tags: seq<TagID>)
    requires |tags| > 0
    ensures (set i | 0 <= i < |tags| :: tags[i]) == {tags[0]} + set i | 0 <= i < |tags[1..]| :: tags[1..][i]
  {
    var rest := tags[1..];
    forall i | 0 <= i < |tags| ensures tags[i] in {tags[0]} + set k | 0 <= k < |rest| :: rest[k] {
      if i > 0 {
        assert rest[i - 1] == tags[i];
      }
    }
    forall i | 0 <= i < |rest| ensures rest[i] in set k | 0 <= k < |tags| :: tags[k] {
      assert tags[i + 1] == rest[i];
    }
  }

  /** `report_new_publish_tags`: each tag is entered with a zero count; a tag
      that is already produced ends the process, which is the error here. */
  function ReportNewPublishTags(produced: map<TagID, nat>, tags: seq<TagID>): (r: Result<map<TagID, nat>, TagID>)
    ensures r.Err? <==> ReportClashes(produced, tags)
    ensures r.Err? ==> r.error in tags
    ensures r.Ok? ==> r.value.Keys == produced.Keys + set i | 0 <= i < |tags| :: tags[i]
    ensures r.Ok? ==> forall t :: t in produced ==> r.value[t] == produced[t]
    ensures r.Ok? ==> forall i :: 0 <= i < |tags| ==> r.value[tags[i]] == 0
    decreases |tags|
  {
    if |tags| == 0 then Ok(produced)
    else if tags[0] in produced then Err(tags[0])
    else
      var rest := tags[1..];
      var r := ReportNewPublishTags(produced[tags[0] := 0], rest);
      assert forall i :: 0 < i < |tags| ==> tags[i] == rest[i - 1];
      ClashesStep(produced, tags);
      TagSetStep(tags);
      r
  }

  /** Registering a list of fresh, distinct tags succeeds, and registering
      any of them a second time fails. */
  lemma ReportTwiceFails(produced: map<TagID, nat>, tags: seq<TagID>)
    requires ReportNewPublishTags(produced, tags).Ok? && |tags| > 0
    ensures ReportNewPublishTags(ReportNewPublishTags(produced, tags).value, tags).Err?
  {
    var p := ReportNewPublishTags(produced, tags).value;
    assert tags[0] in p;
  }
}
