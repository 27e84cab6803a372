/** `AssociativeVector`: a sparse vector stored as a hash map from index to
    value, with a default value for absent indices. An open vector grows
    when it is indexed or combined with another; a closed one keeps its key
    set. Openness is a template parameter in C++ and a field here. Values
    are mathematical integers; iteration order of the hash map is a
    parameter wherever it is observable. */
module AssociativeVector {
  import opened Wrappers
  import PubSubConverter

  datatype AssocVec<K> = AssocVec(default: int, data: map<K, int>, isOpen: bool)

  /** The value an index would read as: stored, or the default. */
  function ValueOr<K>(v: AssocVec<K>, k: K): int
  {
    if k in v.data then v.data[k] else v.default
  }

  /** `AssociativeVector(keys, default)`: exactly those keys, each at the
      default. */
  function FromKeys<K>(keys: seq<K>, default: int, isOpen: bool): (v: AssocVec<K>)
    ensures v.data.Keys == set i | 0 <= i < |keys| :: keys[i]
    ensures forall k :: k in v.data ==> v.data[k] == default
    ensures v.default == default && v.isOpen == isOpen
  {
    AssocVec(default, map i | 0 <= i < |keys| :: keys[i] := default, isOpen)
  }

  /** The converting constructor between open and closed vectors. */
  function WithOpenness<K>(v: AssocVec<K>, isOpen: bool): AssocVec<K>
  {
    v.(isOpen := isOpen)
  }

  datatype IndexError = NonexistentIndex

  /** `operator[]`: an open vector inserts the default for a missing index; a
      closed one throws. Returns the vector after the access and the value
      read. */
  function Index<K>(v: AssocVec<K>, k: K): (r: Result<(AssocVec<K>, int), IndexError>)
    ensures r.Err? <==> !v.isOpen && k !in v.data
    ensures r.Ok? ==> r.value.1 == ValueOr(v, k)
    ensures r.Ok? ==> r.value.0.data.Keys == v.data.Keys + {k} && r.value.0.default == v.default
    ensures r.Ok? ==> forall j :: j in v.data ==> r.value.0.data[j] == v.data[j]
  {
    if k in v.data then Ok((v, v.data[k]))
    else if v.isOpen then Ok((v.(data := v.data[k := v.default]), v.default))
    else Err(NonexistentIndex)
  }

  // ---------------------------------------------------------------------
  // += and -=
  // ---------------------------------------------------------------------

  /** What `+=` (sign 1) or `-=` (sign -1) leaves once the entries of b whose
      keys are in `visited` have been applied, in any order. */
  function Combined<K>(a: AssocVec<K>, b: map<K, int>, visited: set<K>, sign: int): (r: AssocVec<K>)
    requires visited <= b.Keys
  {
    var keys := if a.isOpen then a.data.Keys + visited else a.data.Keys;
    a.(data := map k | k in keys :: if k in visited then ValueOr(a, k) + sign * b[k] else a.data[k])
  }

  /** `operator+=` / `operator-=`, looping over b's entries in the hash
      map's iteration order. An open vector first inserts the default for a
      missing key; a closed one skips keys it does not have. */
  method CombineAssign<K>(a: AssocVec<K>, b: AssocVec<K>, order: seq<K>, sign: int)
    returns (r: AssocVec<K>)
    requires PubSubConverter.IsEnumeration(b.data, order)
    ensures r == Combined(a, b.data, b.data.Keys, sign)
  {
    r := a;
    ghost var visited: set<K> := {};
    assert r.data == Combined(a, b.data, visited, sign).data;
    var i := 0;
    while i < |order|
      invariant i <= |order|
      invariant visited <= b.data.Keys
      invariant forall j :: 0 <= j < i ==> order[j] in visited
      invariant forall j :: i <= j < |order| ==> order[j] !in visited
      invariant r == Combined(a, b.data, visited, sign)
    {
      var k := order[i];
      CombinedStep(a, b.data, visited, k, sign);
      if r.isOpen {
        var base := if k in r.data then r.data[k] else r.default;
        r := r.(data := r.data[k := base + sign * b.data[k]]);
      } else if k in r.data {
        r := r.(data := r.data[k := r.data[k] + sign * b.data[k]]);
      }
      visited := visited + {k};
      i := i + 1;
    }
    assert visited == b.data.Keys;
  }

  /** Applying one more entry of b to the combination so far gives the
      combination with that key visited. */
  lemma CombinedStep<K>(a: AssocVec<K>, b: map<K, int>, visited: set<K>, k: K, sign: int)
    requires visited <= b.Keys && k in b && k !in visited
    ensures var r := Combined(a, b, visited, sign);
            var next := if r.isOpen then r.(data := r.data[k := ValueOr(r, k) + sign * b[k]])
                        else if k in r.data then r.(data := r.data[k := r.data[k] + sign * b[k]])
                        else r;
            next == Combined(a, b, visited + {k}, sign)
  {
    var r := Combined(a, b, visited, sign);
    var next := if r.isOpen then r.(data := r.data[k := ValueOr(r, k) + sign * b[k]])
                else if k in r.data then r.(data := r.data[k := r.data[k] + sign * b[k]])
                else r;
    assert ValueOr(r, k) == ValueOr(a, k);
    assert next.data == Combined(a, b, visited + {k}, sign).data;
  }

  /** Open `+=` takes the union of the keys and adds on shared ones; a
      closed one keeps its keys and adds only where both have the key. */
  lemma CombinedKeys<K>(a: AssocVec<K>, b: map<K, int>, sign: int)
    ensures var r := Combined(a, b, b.Keys, sign);
            r.data.Keys == (if a.isOpen then a.data.Keys + b.Keys else a.data.Keys)
            && (forall k :: k in r.data && k in b ==> r.data[k] == ValueOr(a, k) + sign * b[k])
            && (forall k :: k in r.data && k !in b ==> r.data[k] == a.data[k])
  {
  }

  /** On a closed vector, adding b and then subtracting it restores it. */
  lemma ClosedAddSubtract<K>(a: AssocVec<K>, b: map<K, int>)
    requires !a.isOpen
    ensures Combined(Combined(a, b, b.Keys, 1), b, b.Keys, -1) == a
  {
    var r := Combined(Combined(a, b, b.Keys, 1), b, b.Keys, -1);
    assert r.data == a.data;
  }

  /** On an open vector, adding b and then subtracting it restores the old
      entries and leaves the default at the keys only b had. */
  lemma OpenAddSubtract<K>(a: AssocVec<K>, b: map<K, int>)
    requires a.isOpen
    ensures var r := Combined(Combined(a, b, b.Keys, 1), b, b.Keys, -1);
            r.data.Keys == a.data.Keys + b.Keys
            && (forall k :: k in a.data ==> r.data[k] == a.data[k])
            && (forall k :: k in r.data && k !in a.data ==> r.data[k] == a.default)
  {
  }

  /** Binary `+` and `-`: copy a into an open vector, combine, and convert
      back, so even closed operands give the union of the keys. */
  function Plus<K>(a: AssocVec<K>, b: AssocVec<K>, sign: int): (r: AssocVec<K>)
    ensures r.data.Keys == a.data.Keys + b.data.Keys
    ensures r.isOpen == a.isOpen && r.default == a.default
    ensures forall k :: k in r.data ==> r.data[k] == ValueOr(a, k) + (if k in b.data then sign * b.data[k] else 0)
  {
    WithOpenness(Combined(WithOpenness(a, true), b.data, b.data.Keys, sign), a.isOpen)
  }

  /** `*=`: every stored value scaled; keys and default unchanged. */
  function Scale<K>(a: AssocVec<K>, f: int): (r: AssocVec<K>)
    ensures r.data.Keys == a.data.Keys && r.default == a.default && r.isOpen == a.isOpen
    ensures forall k :: k in r.data ==> r.data[k] == f * a.data[k]
  {
    a.(data := map k | k in a.data :: f * a.data[k])
  }

  /** Unary `-`: builds a new vector from a's map alone, so the default
      value becomes 0 rather than -default. */
  function Negate<K>(a: AssocVec<K>): (r: AssocVec<K>)
    ensures r.data.Keys == a.data.Keys && r.isOpen == a.isOpen && r.default == 0
    ensures forall k :: k in r.data ==> r.data[k] == -a.data[k]
  {
    AssocVec(0, map k | k in a.data :: -a.data[k], a.isOpen)
  }

  lemma NegateTwice<K>(a: AssocVec<K>)
    ensures Negate(Negate(a)) == a.(default := 0)
  {
    assert Negate(Negate(a)).data == a.data;
  }

  /** Scaling by -1 and negating agree on every stored value. */
  lemma NegateIsScale<K>(a: AssocVec<K>)
    ensures Negate(a).data == Scale(a, -1).data
  {
  }

  // ---------------------------------------------------------------------
  // dot
  // ---------------------------------------------------------------------

  /** Sum of f over the listed keys. */
  function SumOver<K>(order: seq<K>, f: K -> int): int
    decreases |order|
  {
    if |order| == 0 then 0 else f(order[0]) + SumOver(order[1..], f)
  }

  /** The product term `dot` adds for key k of b. */
  function DotTerm<K>(a: AssocVec<K>, b: AssocVec<K>): K -> int
  {
    k => if k in a.data && k in b.data then a.data[k] * b.data[k] else 0
  }

  /** `dot`: over b's keys in iteration order, the products at the keys
      that a also has. */
  function Dot<K>(a: AssocVec<K>, b: AssocVec<K>, order: seq<K>): int
    requires PubSubConverter.IsEnumeration(b.data, order)
  {
    SumOver(order, DotTerm(a, b))
  }

  /** Removing one listed key from the sum. */
  lemma {:induction false} SumOverRemove<K>(order: seq<K>, f: K -> int, j: nat)
    requires j < |order|
    ensures SumOver(order, f) == f(order[j]) + SumOver(order[..j] + order[j + 1..], f)
    decreases |order|
  {
    if j > 0 {
      var rest := order[1..];
      SumOverRemove(rest, f, j - 1);
      var x := rest[..j - 1] + rest[j..];
      var y := order[..j] + order[j + 1..];
      RemoveCons(order, j);
      assert SumOver(y, f) == f(order[0]) + SumOver(x, f);
    } else {
      assert order[..0] + order[1..] == order[1..];
    }
  }

  /** Removing a later element keeps the head in front. */
  lemma RemoveCons<K>(order: seq<K>, j: nat)
    requires 0 < j < |order|
    ensures var y := order[..j] + order[j + 1..];
            |y| > 0 && y[0] == order[0] && y[1..] == order[1..][..j - 1] + order[1..][j..]
  {
    var y := order[..j] + order[j + 1..];
    assert y[1..] == order[1..][..j - 1] + order[1..][j..];
  }

  predicate Distinct<K(==)>(o: seq<K>)
  {
    forall i, j :: 0 <= i < j < |o| ==> o[i] != o[j]
  }

  /** Index i of o with its element j removed. */
  lemma RemoveAt<K>(o: seq<K>, j: nat, i: nat)
    requires j < |o| && i < |o| - 1
    ensures (o[..j] + o[j + 1..])[i] == if i < j then o[i] else o[i + 1]
  {
  }

  /** Two listings of the same keys are empty together. */
  lemma NonEmptyListing<K>(o1: seq<K>, o2: seq<K>)
    requires forall x :: x in o1 <==> x in o2
    ensures |o1| > 0 <==> |o2| > 0
  {
    if |o1| > 0 {
      assert o1[0] in o1;
    }
    if |o2| > 0 {
      assert o2[0] in o2;
    }
  }

  /** Sums over two duplicate-free listings of the same keys agree. */
  lemma {:induction false} SumOverPermutation<K>(o1: seq<K>, o2: seq<K>, f: K -> int)
    requires Distinct(o1) && Distinct(o2)
    requires forall x :: x in o1 <==> x in o2
    ensures SumOver(o1, f) == SumOver(o2, f)
    decreases |o1|
  {
    NonEmptyListing(o1, o2);
    if |o1| > 0 {
      var x := o1[0];
      assert x in o1;
      var j :| 0 <= j < |o2| && o2[j] == x;
      var o2' := o2[..j] + o2[j + 1..];
      SumOverRemove(o2, f, j);
      var t := o1[1..];
      forall i, i' | 0 <= i < i' < |o2'| ensures o2'[i] != o2'[i'] {
        RemoveAt(o2, j, i);
        RemoveAt(o2, j, i');
      }
      forall i, i' | 0 <= i < i' < |t| ensures t[i] != t[i'] {
        assert t[i] == o1[i + 1] && t[i'] == o1[i' + 1];
      }
      forall y ensures y in t <==> y in o2' {
        if y in t {
          var i :| 0 <= i < |t| && t[i] == y;
          assert o1[i + 1] == y && y in o1;
          var k :| 0 <= k < |o2| && o2[k] == y;
          assert y != x;
          if k < j {
            RemoveAt(o2, j, k);
          } else {
            RemoveAt(o2, j, k - 1);
          }
        }
        if y in o2' {
          var i :| 0 <= i < |o2'| && o2'[i] == y;
          RemoveAt(o2, j, i);
          var k := if i < j then i else i + 1;
          assert o2[k] == y && y in o2;
          assert y != x by {
            if k < j {
              assert o2[k] != o2[j];
            } else {
              assert o2[j] != o2[k];
            }
          }
          var m :| 0 <= m < |o1| && o1[m] == y;
          assert t[m - 1] == y;
        }
      }
      SumOverPermutation(t, o2', f);
    }
  }

  /** With integer values the hash map's iteration order does not change
      the dot product; with the source's doubles rounding makes it matter. */
  lemma DotOrderIndependent<K>(a: AssocVec<K>, b: AssocVec<K>, o1: seq<K>, o2: seq<K>)
    requires PubSubConverter.IsEnumeration(b.data, o1)
    requires PubSubConverter.IsEnumeration(b.data, o2)
    ensures Dot(a, b, o1) == Dot(a, b, o2)
  {
    SumOverPermutation(o1, o2, DotTerm(a, b));
  }

  // ---------------------------------------------------------------------
  // Pub/sub conversion
  // ---------------------------------------------------------------------

  /** `convert`: the default value and the map's key and value columns. */
  function ToPubSub<K>(v: AssocVec<K>, order: seq<K>): (ps: (int, seq<K>, seq<int>))
    requires PubSubConverter.IsEnumeration(v.data, order)
    ensures ps.0 == v.default && |ps.1| == |ps.2| == |order|
  {
    var cols := PubSubConverter.MapToColumns(v.data, order);
    (v.default, cols.0, cols.1)
  }

  /** `deconvert`: a vector with that default, built from the columns. */
  function FromPubSub<K>(ps: (int, seq<K>, seq<int>), isOpen: bool): AssocVec<K>
    requires |ps.1| <= |ps.2|
  {
    AssocVec(ps.0, PubSubConverter.MapFromColumns(ps.1, ps.2), isOpen)
  }

  /** The round trip keeps the default value and every entry. */
  lemma PubSubRoundTrip<K>(v: AssocVec<K>, order: seq<K>)
    requires PubSubConverter.IsEnumeration(v.data, order)
    ensures FromPubSub(ToPubSub(v, order), v.isOpen) == v
  {
    PubSubConverter.MapRoundTrip(v.data, order);
  }
}
