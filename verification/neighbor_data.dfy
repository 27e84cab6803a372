/** The neighbour data handler: the building blocks an iterative method
    uses on the values its neighbours published. The subscribed tags are a
    sequence, the values received so far a map from tag to value, and the
    transformer picks the part of a value the method works on. Every
    accumulation starts at the first subscribed tag that has a value and
    folds the rest of those tags in, in subscription order; tags without a
    value are skipped. Floating-point sums are modelled as exact `real`
    sums. */
module NeighborData {

  /** A `NeighborDataHandler<B, D>`: the transformer from the published
      value to the data of interest, and the three references the
      iterative method keeps up to date. */
  datatype Handler<T(==), !B, D> = Handler(
    transformer: B -> D,
    tags: seq<T>,
    values: map<T, B>,
    updatedTags: seq<T>)

  /** Some subscribed tag has a value: the accumulations find a place to
      start. */
  predicate HasPresent<T(==), B>(tags: seq<T>, values: map<T, B>)
  {
    exists i :: 0 <= i < |tags| && tags[i] in values
  }

  /** The subscribed tags that have a value, in subscription order. */
  function Present<T(==), B>(tags: seq<T>, values: map<T, B>): (p: seq<T>)
    ensures |p| <= |tags|
    ensures forall i :: 0 <= i < |p| ==> p[i] in tags && p[i] in values
    ensures forall i :: 0 <= i < |tags| && tags[i] in values ==> tags[i] in p
    decreases |tags|
  {
    if |tags| == 0 then []
    else
      var rest := Present(tags[1..], values);
      assert forall i :: 0 < i < |tags| ==> tags[i] == tags[1..][i - 1];
      if tags[0] in values then [tags[0]] + rest else rest
  }

  /** What each subscribed tag with a value contributes, in order. */
  function Contributions<T(==), B, R>(tags: seq<T>, values: map<T, B>, g: (T, B) -> R): (c: seq<R>)
    ensures |c| == |Present(tags, values)|
    decreases |tags|
  {
    if |tags| == 0 then []
    else
      var rest := Contributions(tags[1..], values, g);
      if tags[0] in values then [g(tags[0], values[tags[0]])] + rest else rest
  }

  /** The left fold of op over xs, starting from acc. */
  function FoldLeft<R>(op: (R, R) -> R, acc: R, xs: seq<R>): R
    decreases |xs|
  {
    if |xs| == 0 then acc else FoldLeft(op, op(acc, xs[0]), xs[1..])
  }

  /** The scan for the first tag that has a value. */
  function FirstPresent<T(==), B>(tags: seq<T>, values: map<T, B>, i: nat): (r: nat)
    requires exists j :: i <= j < |tags| && tags[j] in values
    ensures i <= r < |tags| && tags[r] in values
    ensures forall j :: i <= j < r ==> tags[j] !in values
    decreases |tags| - i
  {
    if tags[i] in values then i else FirstPresent(tags, values, i + 1)
  }

  /** The loop over the tags after the first one with a value. */
  function AccumulateFrom<T(==), B, R>(tags: seq<T>, values: map<T, B>, g: (T, B) -> R,
                                       op: (R, R) -> R, i: nat, acc: R): R
    requires i <= |tags|
    decreases |tags| - i
  {
    if i == |tags| then acc
    else if tags[i] !in values then AccumulateFrom(tags, values, g, op, i + 1, acc)
    else AccumulateFrom(tags, values, g, op, i + 1, op(acc, g(tags[i], values[tags[i]])))
  }

  /** The shared shape of `f_accumulate_` and the coefficient-only
      `weighted_f_accumulate_`: g gives a tag's contribution from the tag and
      its value. Without any value the source's scan runs past the end of
      the tags, so some tag must have one. */
  function Accumulate<T(==), B, R>(tags: seq<T>, values: map<T, B>, g: (T, B) -> R, op: (R, R) -> R): R
    requires HasPresent(tags, values)
  {
    var i := FirstPresent(tags, values, 0);
    AccumulateFrom(tags, values, g, op, i + 1, g(tags[i], values[tags[i]]))
  }

  /** The accumulation is the fold of op over the contributions of the
      tags that have a value, in subscription order, starting from the
      first of them. */
  lemma AccumulateIsFold<T, B, R>(tags: seq<T>, values: map<T, B>, g: (T, B) -> R, op: (R, R) -> R)
    requires HasPresent(tags, values)
    ensures |Contributions(tags, values, g)| > 0
    ensures Accumulate(tags, values, g, op)
            == FoldLeft(op, Contributions(tags, values, g)[0], Contributions(tags, values, g)[1..])
  {
    var i := FirstPresent(tags, values, 0);
    SkipAbsent(tags, values, g, i);
    var rest := tags[i..];
    assert rest[0] == tags[i] && rest[1..] == tags[i + 1..];
    AccumulateFromIsFold(tags, values, g, op, i + 1, g(tags[i], values[tags[i]]));
  }

  /** Tags before the first one with a value contribute nothing. */
  lemma {:induction false} SkipAbsent<T, B, R>(tags: seq<T>, values: map<T, B>, g: (T, B) -> R, i: nat)
    requires i <= |tags|
    requires forall j :: 0 <= j < i ==> tags[j] !in values
    ensures Contributions(tags, values, g) == Contributions(tags[i..], values, g)
    decreases i
  {
    if i > 0 {
      assert tags[0] !in values;
      assert tags[1..][i - 1..] == tags[i..];
      SkipAbsent(tags[1..], values, g, i - 1);
    }
  }

  lemma {:induction false} AccumulateFromIsFold<T, B, R>(tags: seq<T>, values: map<T, B>, g: (T, B) -> R,
                                                            op: (R, R) -> R, i: nat, acc: R)
    requires i <= |tags|
    ensures AccumulateFrom(tags, values, g, op, i, acc) == FoldLeft(op, acc, Contributions(tags[i..], values, g))
    decreases |tags| - i
  {
    if i < |tags| {
      var rest := tags[i..];
      assert rest[0] == tags[i] && rest[1..] == tags[i + 1..];
      if tags[i] in values {
        AccumulateFromIsFold(tags, values, g, op, i + 1, op(acc, g(tags[i], values[tags[i]])));
      } else {
        AccumulateFromIsFold(tags, values, g, op, i + 1, acc);
      }
    }
  }

  /** Contributions given by functions that agree are the same. */
  lemma {:induction false} ContributionsExtensional<T, B, R>(tags: seq<T>, values: map<T, B>, g1: (T, B) -> R, g2: (T, B) -> R)
    requires forall t, v :: g1(t, v) == g2(t, v)
    ensures Contributions(tags, values, g1) == Contributions(tags, values, g2)
    decreases |tags|
  {
    if |tags| > 0 {
      ContributionsExtensional(tags[1..], values, g1, g2);
    }
  }

  /** The contribution of a tag under `f_accumulate`: f of its transformed
      value. */
  function Through<T, B, D, R>(h: Handler<T, B, D>, f: D -> R): (T, B) -> R
  {
    (t: T, v: B) => f(h.transformer(v))
  }

  /** `f_accumulate`: f applied to the transformed value of every tag that
      has one, folded with op. */
  function FAccumulate<T(==), B, D, R>(h: Handler<T, B, D>, f: D -> R, op: (R, R) -> R): (r: R)
    requires HasPresent(h.tags, h.values)
    ensures |Contributions(h.tags, h.values, Through(h, f))| > 0
    ensures var c := Contributions(h.tags, h.values, Through(h, f)); r == FoldLeft(op, c[0], c[1..])
  {
    AccumulateIsFold(h.tags, h.values, Through(h, f), op);
    Accumulate(h.tags, h.values, Through(h, f), op)
  }

  /** The contribution of a tag under the coefficient-only accumulation. */
  function CoefficientOf<T, B, R>(coef: T -> R): (T, B) -> R
  {
    (t: T, v: B) => coef(t)
  }

  /** The coefficient-only `weighted_f_accumulate_`: the coefficients of the
      tags that have a value, folded with op; the values themselves are not
      used. */
  function CoefficientAccumulate<T(==), B, D, R>(h: Handler<T, B, D>, coef: T -> R, op: (R, R) -> R): (r: R)
    requires HasPresent(h.tags, h.values)
    ensures |Present(h.tags, h.values)| > 0
    ensures var p := Present(h.tags, h.values); r == FoldLeft(op, coef(p[0]), MapSeq(coef, p[1..]))
  {
    var p := Present(h.tags, h.values);
    AccumulateIsFold(h.tags, h.values, CoefficientOf(coef), op);
    CoefficientContributions(h.tags, h.values, coef);
    assert MapSeq(coef, p)[1..] == MapSeq(coef, p[1..]);
    Accumulate(h.tags, h.values, CoefficientOf(coef), op)
  }

  function MapSeq<T, R>(f: T -> R, xs: seq<T>): (r: seq<R>)
    ensures |r| == |xs| && forall i :: 0 <= i < |xs| ==> r[i] == f(xs[i])
  {
    seq(|xs|, i requires 0 <= i < |xs| => f(xs[i]))
  }

  lemma {:induction false} CoefficientContributions<T, B, R>(tags: seq<T>, values: map<T, B>, coef: T -> R)
    ensures Contributions(tags, values, CoefficientOf(coef)) == MapSeq(coef, Present(tags, values))
    decreases |tags|
  {
    if |tags| > 0 {
      CoefficientContributions(tags[1..], values, coef);
    }
  }

  /** The sum of a sequence of reals. */
  function SumSeq(xs: seq<real>): real
    decreases |xs|
  {
    if |xs| == 0 then 0.0 else xs[0] + SumSeq(xs[1..])
  }

  /** `std::plus` on the data. */
  function Plus(x: real, y: real): real
  {
    x + y
  }

  lemma {:induction false} FoldPlus(acc: real, xs: seq<real>)
    ensures FoldLeft(Plus, acc, xs) == acc + SumSeq(xs)
    decreases |xs|
  {
    if |xs| > 0 {
      FoldPlus(acc + xs[0], xs[1..]);
    }
  }

  /** A non-empty fold of `Plus` is the sum. */
  lemma FoldPlusAll(xs: seq<real>)
    requires |xs| > 0
    ensures FoldLeft(Plus, xs[0], xs[1..]) == SumSeq(xs)
  {
    FoldPlus(xs[0], xs[1..]);
  }

  function Identity(x: real): real
  {
    x
  }

  /** The transformed values of the tags that have one, in order. */
  function DataValues<T(==), B>(h: Handler<T, B, real>): (d: seq<real>)
    ensures |d| == |Present(h.tags, h.values)|
  {
    Contributions(h.tags, h.values, Through(h, Identity))
  }

  /** `sum`: the transformed values of the tags that have one, added up. */
  function Sum<T(==), B>(h: Handler<T, B, real>): (r: real)
    requires HasPresent(h.tags, h.values)
    ensures r == SumSeq(DataValues(h))
  {
    FoldPlusAll(DataValues(h));
    FAccumulate(h, Identity, Plus)
  }

  function One(x: real): real
  {
    1.0
  }

  /** The denominator of `average`: 1.0 for every tag that has a value,
      added up. */
  function PresentCount<T(==), B>(h: Handler<T, B, real>): (r: real)
    requires HasPresent(h.tags, h.values)
    ensures r == |Present(h.tags, h.values)| as real
    ensures r >= 1.0
  {
    FoldPlusAll(Contributions(h.tags, h.values, Through(h, One)));
    SumOfOnes(h.tags, h.values, h.transformer);
    FAccumulate(h, One, Plus)
  }

  lemma {:induction false} SumOfOnes<T, B>(tags: seq<T>, values: map<T, B>, transformer: B -> real)
    ensures SumSeq(Contributions(tags, values, Through(Handler(transformer, tags, values, []), One)))
            == |Present(tags, values)| as real
    decreases |tags|
  {
    if |tags| > 0 {
      SumOfOnes(tags[1..], values, transformer);
    }
  }

  /** `average`: the sum divided by the number of tags that have a value. */
  function Average<T(==), B>(h: Handler<T, B, real>): (r: real)
    requires HasPresent(h.tags, h.values)
    ensures r == SumSeq(DataValues(h)) / (|Present(h.tags, h.values)| as real)
  {
    Sum(h) / PresentCount(h)
  }

  /** Where every transformed value lies in [lo, hi], so does the average. */
  lemma AverageBounds<T, B>(h: Handler<T, B, real>, lo: real, hi: real)
    requires HasPresent(h.tags, h.values)
    requires forall i :: 0 <= i < |DataValues(h)| ==> lo <= DataValues(h)[i] <= hi
    ensures lo <= Average(h) <= hi
  {
    var d := DataValues(h);
    assert |d| > 0 by { assert PresentCount(h) >= 1.0; }
    MeanBounds(d, lo, hi);
  }

  /** The mean of values in [lo, hi] lies in [lo, hi]. */
  lemma MeanBounds(xs: seq<real>, lo: real, hi: real)
    requires |xs| > 0
    requires forall i :: 0 <= i < |xs| ==> lo <= xs[i] <= hi
    ensures lo <= SumSeq(xs) / (|xs| as real) <= hi
  {
    SumBounds(xs, lo, hi);
    DivideBounds(SumSeq(xs), |xs| as real, lo, hi);
  }

  lemma DivideBounds(s: real, n: real, lo: real, hi: real)
    requires n >= 1.0 && n * lo <= s <= n * hi
    ensures lo <= s / n <= hi
  {
  }

  lemma {:induction false} SumBounds(xs: seq<real>, lo: real, hi: real)
    requires forall i :: 0 <= i < |xs| ==> lo <= xs[i] <= hi
    ensures (|xs| as real) * lo <= SumSeq(xs) <= (|xs| as real) * hi
    decreases |xs|
  {
    if |xs| > 0 {
      SumBounds(xs[1..], lo, hi);
      assert xs[0] == xs[0];
    }
  }

  /** Where every transformed value is c, the average is c. */
  lemma AverageOfConstant<T, B>(h: Handler<T, B, real>, c: real)
    requires HasPresent(h.tags, h.values)
    requires forall i :: 0 <= i < |DataValues(h)| ==> DataValues(h)[i] == c
    ensures Average(h) == c
  {
    AverageBounds(h, c, c);
  }

  /** `num_neighbors`: every subscribed tag counts, whether or not it has a
      value. */
  function NumNeighbors<T(==), B, D>(h: Handler<T, B, D>): (n: nat)
    ensures n >= |Present(h.tags, h.values)|
    ensures n == |Present(h.tags, h.values)| <==> forall i :: 0 <= i < |h.tags| ==> h.tags[i] in h.values
  {
    PresentAll(h.tags, h.values);
    |h.tags|
  }

  lemma {:induction false} PresentAll<T, B>(tags: seq<T>, values: map<T, B>)
    ensures |Present(tags, values)| == |tags| <==> forall i :: 0 <= i < |tags| ==> tags[i] in values
    decreases |tags|
  {
    if |tags| > 0 {
      PresentAll(tags[1..], values);
      assert forall i :: 0 < i < |tags| ==> tags[i] == tags[1..][i - 1];
    }
  }

  /** `get_sub_handler`: the same tags and values, seen through the
      transformer followed by sub. */
  function GetSubHandler<T(==), B(!new), D, S>(h: Handler<T, B, D>, sub: D -> S): (r: Handler<T, B, S>)
    ensures r.tags == h.tags && r.values == h.values && r.updatedTags == h.updatedTags
    ensures forall v :: r.transformer(v) == sub(h.transformer(v))
  {
    Handler(v => sub(h.transformer(v)), h.tags, h.values, h.updatedTags)
  }

  /** Accumulating f through a sub-handler is accumulating f after sub
      through the handler it came from. */
  lemma SubHandlerAccumulate<T, B(!new), D, S, R>(h: Handler<T, B, D>, sub: D -> S, f: S -> R, op: (R, R) -> R)
    requires HasPresent(h.tags, h.values)
    ensures FAccumulate(GetSubHandler(h, sub), f, op) == FAccumulate(h, x => f(sub(x)), op)
  {
    ContributionsExtensional(h.tags, h.values, Through(GetSubHandler(h, sub), f), Through(h, x => f(sub(x))));
  }
}
