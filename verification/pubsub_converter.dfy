/** The pub/sub converters: pairs of functions that turn a value of a user
    type into something the publish system can carry, and back. A converter
    is a record of its two functions; element converters are parameters, so
    the containers below work for any element type whose converter round
    trips. */
module PubSubConverter {
  import opened Wrappers
  import opened CInts
  import Algorithms

  datatype Converter<!T, !P> = Converter(convert: T -> P, deconvert: P -> T)

  /** deconvert ∘ convert is the identity. */
  ghost predicate RoundTrips<T(!new), P>(c: Converter<T, P>)
  {
    forall t :: c.deconvert(c.convert(t)) == t
  }

  /** The default converter, for types the publish system carries natively. */
  function Identity<T>(): Converter<T, T>
  {
    Converter(t => t, t => t)
  }

  lemma IdentityRoundTrips<T(!new)>()
    ensures RoundTrips(Identity<T>())
  {
  }

  // ---------------------------------------------------------------------
  // Generic vectors
  // ---------------------------------------------------------------------

  /** Applies f to every element, in order. */
  function MapSeq<A, B>(s: seq<A>, f: A -> B): (r: seq<B>)
    ensures |r| == |s| && forall i :: 0 <= i < |s| ==> r[i] == f(s[i])
  {
    seq(|s|, i requires 0 <= i < |s| => f(s[i]))
  }

  /** The `std::vector<T>` converter: element-wise, keeping length and order. */
  function VectorConverter<T, P>(c: Converter<T, P>): Converter<seq<T>, seq<P>>
  {
    Converter(s => MapSeq(s, c.convert), s => MapSeq(s, c.deconvert))
  }

  lemma VectorRoundTrips<T(!new), P>(c: Converter<T, P>)
    requires RoundTrips(c)
    ensures RoundTrips(VectorConverter(c))
  {
    var v := VectorConverter(c);
    forall s: seq<T> ensures v.deconvert(v.convert(s)) == s {
      MapSeqRoundTrip(s, c);
    }
  }

  // ---------------------------------------------------------------------
  // unordered_map
  // ---------------------------------------------------------------------

  /** `order` lists each key of m once: the iteration order of the
      unordered_map, which the model leaves open. */
  predicate IsEnumeration<K, V>(m: map<K, V>, order: seq<K>)
  {
    (forall i, j :: 0 <= i < j < |order| ==> order[i] != order[j])
    && (forall i :: 0 <= i < |order| ==> order[i] in m)
    && (forall k :: k in m ==> k in order)
  }

  /** `convert` for an unordered_map: parallel key and value vectors in
      iteration order. */
  function MapToColumns<K, V>(m: map<K, V>, order: seq<K>): (r: (seq<K>, seq<V>))
    requires forall i :: 0 <= i < |order| ==> order[i] in m
    ensures |r.0| == |r.1| == |order|
    ensures forall i :: 0 <= i < |order| ==> r.0[i] == order[i] && r.1[i] == m[order[i]]
  {
    (order, seq(|order|, i requires 0 <= i < |order| => m[order[i]]))
  }

  /** `deconvert`: `map[keys[i]] = vals[i]` for each key in turn, so a
      repeated key keeps its last value. Values beyond the keys are ignored;
      fewer values than keys is out of bounds in the C++ code. */
  function MapFromColumns<K, V>(keys: seq<K>, vals: seq<V>): (m: map<K, V>)
    requires |keys| <= |vals|
    ensures m.Keys == set i | 0 <= i < |keys| :: keys[i]
    decreases |keys|
  {
    if |keys| == 0 then map[]
    else
      var n := |keys| - 1;
      var m := MapFromColumns(keys[..n], vals);
      assert forall i :: 0 <= i < n ==> keys[..n][i] == keys[i];
      m[keys[n] := vals[n]]
  }

  /** The value stored under a key is the one that came with its last
      occurrence. */
  lemma {:induction false} MapFromColumnsLastWins<K, V>(keys: seq<K>, vals: seq<V>, i: nat)
    requires |keys| <= |vals| && i < |keys|
    requires forall j :: i < j < |keys| ==> keys[j] != keys[i]
    ensures MapFromColumns(keys, vals)[keys[i]] == vals[i]
    decreases |keys|
  {
    var n := |keys| - 1;
    if i < n {
      MapFromColumnsLastWins(keys[..n], vals, i);
    }
  }

  /** Rebuilding the map from its columns gives the same map, whatever the
      iteration order was. */
  lemma MapRoundTrip<K, V>(m: map<K, V>, order: seq<K>)
    requires IsEnumeration(m, order)
    ensures var cols := MapToColumns(m, order);
            MapFromColumns(cols.0, cols.1) == m
  {
    var cols := MapToColumns(m, order);
    var r := MapFromColumns(cols.0, cols.1);
    forall k | k in m ensures k in r && r[k] == m[k] {
      var i :| 0 <= i < |order| && order[i] == k;
      MapFromColumnsLastWins(cols.0, cols.1, i);
    }
  }

  // ---------------------------------------------------------------------
  // Vectors of tuples
  // ---------------------------------------------------------------------

  /** A tuple of `width` fields, all taken from one field type F. */
  predicate Rectangular<F>(rows: seq<seq<F>>, width: nat)
  {
    forall i :: 0 <= i < |rows| ==> |rows[i]| == width
  }

  /** `convert` for `vector<tuple<Ts...>>`: one column per tuple position,
      each as long as the input. */
  function Transpose<F>(rows: seq<seq<F>>, width: nat): (cols: seq<seq<F>>)
    requires Rectangular(rows, width)
    ensures |cols| == width
    ensures forall c :: 0 <= c < width ==> |cols[c]| == |rows|
    ensures forall c, i :: 0 <= c < width && 0 <= i < |rows| ==> cols[c][i] == rows[i][c]
  {
    seq(width, c requires 0 <= c < width =>
      seq(|rows|, i requires 0 <= i < |rows| => rows[i][c]))
  }

  /** `deconvert`: as many rows as column 0 is long, each row gathering
      position i of every column; `at(i)` throws when a later column is
      shorter. The tuple has at least one element type. */
  function Zip<F>(cols: seq<seq<F>>): (r: Option<seq<seq<F>>>)
    requires |cols| > 0
    ensures r.Some? <==> forall c :: 0 <= c < |cols| ==> |cols[c]| >= |cols[0]|
    ensures r.Some? ==> |r.value| == |cols[0]| && Rectangular(r.value, |cols|)
    ensures r.Some? ==> forall i, c :: 0 <= i < |cols[0]| && 0 <= c < |cols| ==> r.value[i][c] == cols[c][i]
  {
    if forall c :: 0 <= c < |cols| ==> |cols[c]| >= |cols[0]| then
      Some(seq(|cols[0]|, i requires 0 <= i < |cols[0]| =>
        seq(|cols|, c requires 0 <= c < |cols| => cols[c][i])))
    else None
  }

  lemma TupleVectorRoundTrip<F>(rows: seq<seq<F>>, width: nat)
    requires width > 0 && Rectangular(rows, width)
    ensures Zip(Transpose(rows, width)) == Some(rows)
  {
    var cols := Transpose(rows, width);
    assert forall c :: 0 <= c < |cols| ==> |cols[c]| >= |cols[0]|;
    var z := Zip(cols).value;
    assert |z| == |rows|;
    forall i | 0 <= i < |rows| ensures z[i] == rows[i] {
      assert forall c :: 0 <= c < width ==> z[i][c] == cols[c][i] == rows[i][c];
    }
    assert z == rows;
  }

  /** Columns of equal length are rebuilt exactly by transposing back. */
  lemma TupleVectorReverseRoundTrip<F>(cols: seq<seq<F>>)
    requires |cols| > 0 && forall c :: 0 <= c < |cols| ==> |cols[c]| == |cols[0]|
    ensures Zip(cols).Some? && Transpose(Zip(cols).value, |cols|) == cols
  {
    var t := Transpose(Zip(cols).value, |cols|);
    forall c | 0 <= c < |cols| ensures t[c] == cols[c] {
    }
  }

  // ---------------------------------------------------------------------
  // Nested vectors
  // ---------------------------------------------------------------------

  /** `convert` for `vector<vector<T>>`: the inner sizes, narrowed to
      uint32, and the converted elements in one flat vector. */
  function Flatten<T, P>(v: seq<seq<T>>, conv: T -> P): (r: (seq<U32>, seq<P>))
    ensures |r.0| == |v|
    ensures forall i :: 0 <= i < |v| ==> r.0[i] == |v[i]| % Two32
    decreases |v|
  {
    if |v| == 0 then ([], [])
    else
      var rest := Flatten(v[1..], conv);
      var sizes := [|v[0]| % Two32] + rest.0;
      assert forall i :: 1 <= i < |v| ==> sizes[i] == rest.0[i - 1] && v[i] == v[1..][i - 1];
      (sizes, MapSeq(v[0], conv) + rest.1)
  }

  /** The flat vector holds the converted elements of the inner vectors,
      concatenated in order. */
  lemma {:induction false} FlattenConcatenates<T, P>(v: seq<seq<T>>, conv: T -> P)
    ensures Flatten(v, conv).1 == MapSeq(Algorithms.Concatenate(v), conv)
    decreases |v|
  {
    if |v| > 0 {
      FlattenConcatenates(v[1..], conv);
      ConcatenateCons(v[0], v[1..]);
      assert v == [v[0]] + v[1..];
      MapSeqAppend(v[0], Algorithms.Concatenate(v[1..]), conv);
    }
  }

  lemma MapSeqAppend<A, B>(s: seq<A>, t: seq<A>, f: A -> B)
    ensures MapSeq(s + t, f) == MapSeq(s, f) + MapSeq(t, f)
  {
    var l, r := MapSeq(s + t, f), MapSeq(s, f) + MapSeq(t, f);
    forall i | 0 <= i < |l| ensures l[i] == r[i] {
      if i < |s| {
        assert (s + t)[i] == s[i];
      } else {
        assert (s + t)[i] == t[i - |s|];
      }
    }
  }

  lemma {:induction false} ConcatenateCons<T>(x: seq<T>, rest: seq<seq<T>>)
    ensures Algorithms.Concatenate([x] + rest) == x + Algorithms.Concatenate(rest)
    decreases |rest|
  {
    if |rest| == 0 {
      assert [x] + rest == [x];
      assert Algorithms.Concatenate([x]) == Algorithms.Concatenate([]) + x;
    } else {
      var n := |rest| - 1;
      var s := [x] + rest;
      assert s[..|s| - 1] == [x] + rest[..n];
      ConcatenateCons(x, rest[..n]);
    }
  }

  function SumSizes(sizes: seq<U32>): nat
  {
    if |sizes| == 0 then 0 else sizes[0] + SumSizes(sizes[1..])
  }

  /** `deconvert`: cuts the flat vector into pieces of the given sizes. The
      C++ loop reads past the end when the sizes add up to more than the
      flat vector holds; extra flat elements are ignored. */
  function Unflatten<T, P>(sizes: seq<U32>, flat: seq<P>, deconv: P -> T): (v: seq<seq<T>>)
    requires SumSizes(sizes) <= |flat|
    ensures |v| == |sizes|
    ensures forall i :: 0 <= i < |v| ==> |v[i]| == sizes[i]
    decreases |sizes|
  {
    if |sizes| == 0 then []
    else [MapSeq(flat[..sizes[0]], deconv)] + Unflatten(sizes[1..], flat[sizes[0]..], deconv)
  }

  lemma {:induction false} FlattenSizes<T, P>(v: seq<seq<T>>, conv: T -> P)
    requires forall i :: 0 <= i < |v| ==> |v[i]| < Two32
    ensures SumSizes(Flatten(v, conv).0) == |Flatten(v, conv).1|
    decreases |v|
  {
    if |v| > 0 {
      FlattenSizes(v[1..], conv);
      var f, rest := Flatten(v, conv), Flatten(v[1..], conv);
      FlattenCons(v, conv);
      assert |v[0]| < Two32;
      var sizes := f.0;
      assert sizes[0] == |v[0]| && sizes[1..] == rest.0;
      assert SumSizes(sizes) == |v[0]| + SumSizes(rest.0);
      assert |f.1| == |MapSeq(v[0], conv)| + |rest.1|;
    }
  }

  /** One step of `Flatten`: the first inner vector comes first. */
  lemma FlattenCons<T, P>(v: seq<seq<T>>, conv: T -> P)
    requires |v| > 0
    ensures Flatten(v, conv).0 == [|v[0]| % Two32] + Flatten(v[1..], conv).0
    ensures Flatten(v, conv).1 == MapSeq(v[0], conv) + Flatten(v[1..], conv).1
  {
  }

  /** Sizes below 2^32 survive the uint32 narrowing, and then unflattening
      the flattened vector gives it back. */
  lemma {:induction false} NestedRoundTrip<T(!new), P>(v: seq<seq<T>>, c: Converter<T, P>)
    requires RoundTrips(c)
    requires forall i :: 0 <= i < |v| ==> |v[i]| < Two32
    ensures var f := Flatten(v, c.convert);
            SumSizes(f.0) <= |f.1| && Unflatten(f.0, f.1, c.deconvert) == v
    decreases |v|
  {
    FlattenSizes(v, c.convert);
    if |v| > 0 {
      NestedRoundTrip(v[1..], c);
      FlattenCons(v, c.convert);
      assert |v[0]| % Two32 == |v[0]|;
      NestedStep(v[0], v[1..], Flatten(v[1..], c.convert), c);
      assert v == [v[0]] + v[1..];
    }
  }

  /** Prepending an inner vector to a flattened vector that unflattens back
      to `later` gives one that unflattens back to both. */
  lemma NestedStep<T(!new), P>(first: seq<T>, later: seq<seq<T>>, rest: (seq<U32>, seq<P>), c: Converter<T, P>)
    requires RoundTrips(c) && |first| < Two32
    requires SumSizes(rest.0) <= |rest.1| && Unflatten(rest.0, rest.1, c.deconvert) == later
    ensures var sizes, flat := [|first|] + rest.0, MapSeq(first, c.convert) + rest.1;
            SumSizes(sizes) <= |flat| && Unflatten(sizes, flat, c.deconvert) == [first] + later
  {
    var sizes, flat := [|first|] + rest.0, MapSeq(first, c.convert) + rest.1;
    var n := |first|;
    assert sizes[0] == n && sizes[1..] == rest.0;
    assert flat[..n] == MapSeq(first, c.convert) && flat[n..] == rest.1;
    UnflattenCons(sizes, flat, c.deconvert);
    MapSeqRoundTrip(first, c);
  }

  /** One step of `Unflatten`: the first piece is cut off the front. */
  lemma UnflattenCons<T, P>(sizes: seq<U32>, flat: seq<P>, deconv: P -> T)
    requires |sizes| > 0 && SumSizes(sizes) <= |flat|
    ensures Unflatten(sizes, flat, deconv)
            == [MapSeq(flat[..sizes[0]], deconv)] + Unflatten(sizes[1..], flat[sizes[0]..], deconv)
  {
  }

  lemma MapSeqRoundTrip<T(!new), P>(s: seq<T>, c: Converter<T, P>)
    requires RoundTrips(c)
    ensures MapSeq(MapSeq(s, c.convert), c.deconvert) == s
  {
  }

  /** A size of 2^32 or more is narrowed, so the round trip loses data. */
  lemma NestedSizeTruncates<T, P>(v: seq<seq<T>>, conv: T -> P, i: nat)
    requires i < |v| && |v[i]| == Two32
    ensures Flatten(v, conv).0[i] == 0
  {
  }
}
