/** std::map with std::string keys, as an association list kept in strictly
    increasing key order, so that iterating it visits keys in the same order
    the C++ container does. */
module SortedMap {
  import opened Wrappers
  import StringOrder

  type Assoc<V> = seq<(string, V)>

  predicate KeysSorted<V>(a: Assoc<V>)
  {
    forall i, j :: 0 <= i < j < |a| ==> StringOrder.Less(a[i].0, a[j].0)
  }

  predicate HasKey<V>(a: Assoc<V>, k: string)
  {
    exists i :: 0 <= i < |a| && a[i].0 == k
  }

  /** The keys in iteration order. */
  function KeyList<V>(a: Assoc<V>): (ks: seq<string>)
    ensures |ks| == |a| && forall i :: 0 <= i < |a| ==> ks[i] == a[i].0
  {
    seq(|a|, i requires 0 <= i < |a| => a[i].0)
  }

  /** `find`: the value stored under k, if any. */
  function Get<V>(a: Assoc<V>, k: string): (r: Option<V>)
    ensures r.Some? <==> HasKey(a, k)
    ensures r.Some? ==> exists i :: 0 <= i < |a| && a[i] == (k, r.value)
  {
    if |a| == 0 then None
    else if a[0].0 == k then Some(a[0].1)
    else
      var r := Get(a[1..], k);
      assert HasKey(a, k) ==> HasKey(a[1..], k) by {
        if HasKey(a, k) {
          var i :| 0 <= i < |a| && a[i].0 == k;
          assert a[1..][i - 1] == a[i];
        }
      }
      assert r.Some? ==> exists i :: 0 <= i < |a| && a[i] == (k, r.value) by {
        if r.Some? {
          var i :| 0 <= i < |a[1..]| && a[1..][i] == (k, r.value);
          assert a[i + 1] == a[1..][i];
        }
      }
      r
  }

  lemma SortedTail<V>(a: Assoc<V>)
    requires KeysSorted(a) && |a| > 0
    ensures KeysSorted(a[1..])
    ensures forall i :: 0 <= i < |a[1..]| ==> StringOrder.Less(a[0].0, a[1..][i].0)
  {
    forall i | 0 <= i < |a[1..]| ensures StringOrder.Less(a[0].0, a[1..][i].0) {
      assert a[1..][i] == a[i + 1];
    }
  }

  lemma SortedCons<V>(x: (string, V), t: Assoc<V>)
    requires KeysSorted(t)
    requires forall i :: 0 <= i < |t| ==> StringOrder.Less(x.0, t[i].0)
    ensures KeysSorted([x] + t)
  {
    var r := [x] + t;
    forall i, j | 0 <= i < j < |r| ensures StringOrder.Less(r[i].0, r[j].0) {
      assert r[j] == t[j - 1];
      if i > 0 {
        assert r[i] == t[i - 1];
      }
    }
  }

  /** In a sorted list a key's entry is the only one carrying it. */
  lemma SortedGet<V>(a: Assoc<V>, i: nat)
    requires KeysSorted(a) && i < |a|
    ensures Get(a, a[i].0) == Some(a[i].1)
  {
    if i > 0 {
      StringOrder.LessIrreflexive(a[i].0);
      assert a[0].0 != a[i].0;
      SortedTail(a);
      assert a[1..][i - 1] == a[i];
      SortedGet(a[1..], i - 1);
    }
  }

  /** What `Put(a, k, v)` promises about its result r. */
  ghost predicate PutResult<V>(a: Assoc<V>, k: string, v: V, r: Assoc<V>)
  {
    && KeysSorted(r)
    && Get(r, k) == Some(v)
    && (forall k' :: k' != k ==> Get(r, k') == Get(a, k'))
    && (forall i :: 0 <= i < |r| ==> r[i] == (k, v) || r[i] in a)
    && (HasKey(a, k) ==> |r| == |a|)
  }

  /** Inserts k with value v, or replaces the value k already has, keeping the
      keys sorted. */
  function Put<V>(a: Assoc<V>, k: string, v: V): (r: Assoc<V>)
    requires KeysSorted(a)
    ensures KeysSorted(r)
    ensures Get(r, k) == Some(v)
    ensures forall k' :: k' != k ==> Get(r, k') == Get(a, k')
    ensures forall i :: 0 <= i < |r| ==> r[i] == (k, v) || r[i] in a
    ensures HasKey(a, k) ==> |r| == |a|
  {
    if |a| == 0 then [(k, v)]
    else if a[0].0 == k then
      PutAtHead(a, k, v);
      [(k, v)] + a[1..]
    else if StringOrder.Less(k, a[0].0) then
      PutBefore(a, k, v);
      [(k, v)] + a
    else
      SortedTail(a);
      var t := Put(a[1..], k, v);
      PutAfter(a, k, v, t);
      [a[0]] + t
  }

  lemma PutAtHead<V>(a: Assoc<V>, k: string, v: V)
    requires KeysSorted(a) && |a| > 0 && a[0].0 == k
    ensures PutResult(a, k, v, [(k, v)] + a[1..])
  {
    SortedTail(a);
    SortedCons((k, v), a[1..]);
    var r := [(k, v)] + a[1..];
    forall i | 0 <= i < |r| ensures r[i] == (k, v) || r[i] in a {
      if i > 0 {
        assert r[i] == a[i];
      }
    }
    assert r[1..] == a[1..];
  }

  lemma PutBefore<V>(a: Assoc<V>, k: string, v: V)
    requires KeysSorted(a) && |a| > 0 && StringOrder.Less(k, a[0].0)
    ensures PutResult(a, k, v, [(k, v)] + a)
  {
    forall i | 0 <= i < |a| ensures StringOrder.Less(k, a[i].0) {
      if i > 0 {
        StringOrder.LessTransitive(k, a[0].0, a[i].0);
      }
    }
    SortedCons((k, v), a);
    var r := [(k, v)] + a;
    assert r[1..] == a;
    forall i | 0 <= i < |r| ensures r[i] == (k, v) || r[i] in a {
      if i > 0 {
        assert r[i] == a[i - 1];
      }
    }
    assert !HasKey(a, k) by {
      if HasKey(a, k) {
        var i :| 0 <= i < |a| && a[i].0 == k;
        StringOrder.LessIrreflexive(k);
      }
    }
  }

  lemma PutAfter<V>(a: Assoc<V>, k: string, v: V, t: Assoc<V>)
    requires KeysSorted(a) && |a| > 0 && a[0].0 != k && !StringOrder.Less(k, a[0].0)
    requires PutResult(a[1..], k, v, t)
    ensures PutResult(a, k, v, [a[0]] + t)
  {
    StringOrder.LessTotal(k, a[0].0);
    SortedTail(a);
    forall i | 0 <= i < |t| ensures StringOrder.Less(a[0].0, t[i].0) {
      if t[i] != (k, v) {
        var j :| 0 <= j < |a[1..]| && a[1..][j] == t[i];
      }
    }
    SortedCons(a[0], t);
    var r := [a[0]] + t;
    assert r[1..] == t;
    forall i | 0 <= i < |r| ensures r[i] == (k, v) || r[i] in a {
      if i > 0 && r[i] != (k, v) {
        assert r[i] == t[i - 1];
        var j :| 0 <= j < |a[1..]| && a[1..][j] == t[i - 1];
        assert a[j + 1] == a[1..][j];
      }
    }
    assert HasKey(a, k) ==> HasKey(a[1..], k) by {
      if HasKey(a, k) {
        var i :| 0 <= i < |a| && a[i].0 == k;
        assert a[1..][i - 1] == a[i];
      }
    }
  }

  /** Applies f to every value, keeping keys and order. */
  function MapValues<V>(a: Assoc<V>, f: V -> V): (r: Assoc<V>)
    ensures |r| == |a|
    ensures forall i :: 0 <= i < |a| ==> r[i] == (a[i].0, f(a[i].1))
  {
    seq(|a|, i requires 0 <= i < |a| => (a[i].0, f(a[i].1)))
  }

  lemma MapValuesSorted<V>(a: Assoc<V>, f: V -> V)
    requires KeysSorted(a)
    ensures KeysSorted(MapValues(a, f))
    ensures KeyList(MapValues(a, f)) == KeyList(a)
  {
  }
}
