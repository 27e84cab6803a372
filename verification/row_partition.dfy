/** The arithmetic of the Jacobi examples' redundant row partitioner: how many
    rows each of N ranks holds at baseline, where each rank's rows start, and
    which global rows a rank holds when every rank is given k extra rows that
    wrap around the end of an m-row system. */
module RowPartition {

  /** The rows lo, lo+1, ..., hi-1. */
  function Range(lo: nat, hi: nat): (s: seq<nat>)
    requires lo <= hi
    ensures |s| == hi - lo
    ensures forall i :: 0 <= i < |s| ==> s[i] == lo + i
  {
    seq(hi - lo, i => lo + i)
  }

  function Sum(s: seq<nat>): nat
  {
    if |s| == 0 then 0 else s[0] + Sum(s[1..])
  }

  function Flatten(ws: seq<seq<nat>>): seq<nat>
  {
    if |ws| == 0 then [] else Flatten(ws[..|ws| - 1]) + ws[|ws| - 1]
  }

  lemma {:induction false} SumAppend(s: seq<nat>, t: seq<nat>)
    ensures Sum(s + t) == Sum(s) + Sum(t)
    decreases |s|
  {
    if |s| > 0 {
      assert (s + t)[0] == s[0];
      assert (s + t)[1..] == s[1..] + t;
      SumAppend(s[1..], t);
    } else {
      assert s + t == t;
    }
  }

  lemma {:induction false} SumIncrement(s: seq<nat>, i: nat)
    requires i < |s|
    ensures Sum(s[i := s[i] + 1]) == Sum(s) + 1
    decreases |s|
  {
    if i > 0 {
      assert s[i := s[i] + 1][1..] == s[1..][i - 1 := s[i] + 1];
      SumIncrement(s[1..], i - 1);
    }
  }

  lemma {:induction false} SumOfZeros(n: nat)
    ensures Sum(seq(n, _ => 0)) == 0
  {
    if n > 0 {
      assert seq(n, _ => 0)[1..] == seq(n - 1, _ => 0);
      SumOfZeros(n - 1);
    }
  }

  lemma MulAtLeast(n: nat, d: int)
    requires d >= 1
    ensures n * d >= n
  {
    var e: nat := d - 1;
    assert n * d == n * e + n;
  }

  /** Euclidean division is characterised by its quotient-remainder equation. */
  lemma DivModUnique(a: nat, n: nat, q: nat, r: nat)
    requires n > 0 && r < n && a == n * q + r
    ensures a / n == q && a % n == r
  {
    var q', r' := a / n, a % n;
    assert a == n * q' + r';
    assert n * (q - q') == r' - r;
    if q > q' {
      MulAtLeast(n, q - q');
    } else if q < q' {
      assert n * (q' - q) == r - r';
      MulAtLeast(n, q' - q);
    }
  }

  lemma DivModStep(a: nat, n: nat)
    requires n > 0
    ensures a % n + 1 < n ==> (a + 1) / n == a / n && (a + 1) % n == a % n + 1
    ensures a % n + 1 == n ==> (a + 1) / n == a / n + 1 && (a + 1) % n == 0
  {
    if a % n + 1 < n {
      DivModUnique(a + 1, n, a / n, a % n + 1);
    } else {
      DivModUnique(a + 1, n, a / n + 1, 0);
    }
  }

  /** The row_count array after the counting loop has visited rows 0..i-1:
      row i-1 is credited to rank (i-1) mod n. */
  function CountsAfter(i: nat, n: nat): (c: seq<nat>)
    requires n > 0
    ensures |c| == n
  {
    if i == 0 then seq(n, _ => 0)
    else
      var p := CountsAfter(i - 1, n);
      var r := (i - 1) % n;
      p[r := p[r] + 1]
  }

  /** Baseline row counts of an m-row system over n ranks. */
  function RowCounts(m: nat, n: nat): (c: seq<nat>)
    requires n > 0
    ensures |c| == n
  {
    CountsAfter(m, n)
  }

  /** Dealing rows round-robin gives every rank m div n rows, and one more to
      the first m mod n ranks. */
  lemma {:induction false} CountsAfterClosedForm(i: nat, n: nat)
    requires n > 0
    ensures forall r :: 0 <= r < n ==> CountsAfter(i, n)[r] == i / n + (if r < i % n then 1 else 0)
    decreases i
  {
    if i > 0 {
      CountsAfterClosedForm(i - 1, n);
      DivModStep(i - 1, n);
    }
  }

  lemma RowCountsRoundRobin(m: nat, n: nat)
    requires n > 0
    ensures forall r :: 0 <= r < n ==> RowCounts(m, n)[r] == m / n + (if r < m % n then 1 else 0)
  {
    CountsAfterClosedForm(m, n);
  }

  /** Every row is counted exactly once. */
  lemma {:induction false} CountsAfterSum(i: nat, n: nat)
    requires n > 0
    ensures Sum(CountsAfter(i, n)) == i
    decreases i
  {
    if i == 0 {
      SumOfZeros(n);
    } else {
      CountsAfterSum(i - 1, n);
      SumIncrement(CountsAfter(i - 1, n), (i - 1) % n);
    }
  }

  lemma RowCountsSum(m: nat, n: nat)
    requires n > 0
    ensures Sum(RowCounts(m, n)) == m
  {
    CountsAfterSum(m, n);
  }

  /** With no more ranks than rows, every rank gets at least one row. */
  lemma RowCountsPositive(m: nat, n: nat)
    requires 0 < n <= m
    ensures forall r :: 0 <= r < n ==> RowCounts(m, n)[r] >= 1
  {
    RowCountsRoundRobin(m, n);
    assert m == n * (m / n) + m % n;
    assert n * (m / n) >= 1;
  }

  /** With more ranks than rows, the ranks from m on get no rows. */
  lemma RowCountsZeroBeyond(m: nat, n: nat)
    requires n > m
    ensures forall r :: m <= r < n ==> RowCounts(m, n)[r] == 0
  {
    RowCountsRoundRobin(m, n);
    DivModUnique(m, n, 0, m);
  }

  /** Rank r's first row: the baseline rows of the ranks before it. */
  function Start(counts: seq<nat>, r: nat): nat
    requires r <= |counts|
  {
    Sum(counts[..r])
  }

  lemma StartStep(counts: seq<nat>, r: nat)
    requires r < |counts|
    ensures Start(counts, r + 1) == Start(counts, r) + counts[r]
  {
    assert counts[..r + 1] == counts[..r] + [counts[r]];
    SumAppend(counts[..r], [counts[r]]);
    assert [counts[r]][1..] == [];
  }

  lemma {:induction false} StartBound(counts: seq<nat>, r: nat)
    requires r <= |counts|
    ensures Start(counts, r) <= Sum(counts)
    ensures r < |counts| ==> Start(counts, r) + counts[r] <= Sum(counts)
  {
    assert counts == counts[..r] + counts[r..];
    SumAppend(counts[..r], counts[r..]);
    if r < |counts| {
      assert counts[r..][0] == counts[r];
    }
  }

  /** With no more ranks than rows every rank's first row exists. */
  lemma StartInRange(m: nat, n: nat, r: nat)
    requires 0 < n <= m && r < n
    ensures Start(RowCounts(m, n), r) + RowCounts(m, n)[r] <= m
    ensures Start(RowCounts(m, n), r) < m
  {
    RowCountsSum(m, n);
    RowCountsPositive(m, n);
    StartBound(RowCounts(m, n), r);
  }

  /** With more ranks than rows, rank m is the first whose start is past the
      last row. */
  lemma StartBeyond(m: nat, n: nat)
    requires n > m
    ensures Start(RowCounts(m, n), m) == m
    ensures forall r :: 0 <= r < m ==> Start(RowCounts(m, n), r) < m
  {
    var c := RowCounts(m, n);
    RowCountsSum(m, n);
    RowCountsZeroBeyond(m, n);
    StartBound(c, m);
    assert c == c[..m] + c[m..];
    SumAppend(c[..m], c[m..]);
    ZerosSum(c[m..]);
    if m > 0 {
      RowCountsPositive(m, m);
      RowCountsRoundRobin(m, n);
      DivModUnique(m, n, 0, m);
      forall r | 0 <= r < m ensures Start(c, r) < m {
        StartBound(c, r);
        assert c[r] == 1;
      }
    }
  }

  lemma {:induction false} ZerosSum(s: seq<nat>)
    requires forall i :: 0 <= i < |s| ==> s[i] == 0
    ensures Sum(s) == 0
  {
    if |s| > 0 {
      ZerosSum(s[1..]);
    }
  }

  /** The global rows a rank starting at `start` holds when it is asked for
      `len` rows of an m-row system: the start row itself, unreduced, then
      the following rows reduced modulo m, so that a window running past the
      last row continues at row 0. A request for fewer than one row still
      yields the start row. */
  function Window(start: nat, len: int, m: nat): (w: seq<nat>)
    requires m > 0
    ensures |w| == if len >= 1 then len else 1
  {
    seq(if len >= 1 then len else 1, j => if j == 0 then start else (start + j) % m)
  }

  /** The windows of ranks with the given baseline counts at level k. */
  function Windows(counts: seq<nat>, m: nat, k: int): (ws: seq<seq<nat>>)
    requires 0 < m
    ensures |ws| == |counts|
  {
    seq(|counts|, r requires 0 <= r < |counts| => Window(Start(counts, r), k + counts[r], m))
  }

  /** The windows of all ranks at redundancy level k. */
  function LevelWindows(m: nat, n: nat, k: int): (ws: seq<seq<nat>>)
    requires 0 < n && 0 < m
    ensures |ws| == n
  {
    Windows(RowCounts(m, n), m, k)
  }

  /** A window that does not reach the last row is a plain range. */
  lemma WindowIsRange(start: nat, len: nat, m: nat)
    requires 0 < m && 1 <= len && start + len <= m
    ensures Window(start, len, m) == Range(start, start + len)
  {
    var w, r := Window(start, len, m), Range(start, start + len);
    forall j | 0 <= j < len ensures w[j] == r[j] {
      if j > 0 {
        DivModUnique(start + j, m, 0, start + j);
      }
    }
  }

  lemma RangeConcat(a: nat, b: nat, c: nat)
    requires a <= b <= c
    ensures Range(a, b) + Range(b, c) == Range(a, c)
  {
  }

  lemma BaselineWindow(m: nat, n: nat, r: nat)
    requires 0 < n <= m && r < n
    ensures Start(RowCounts(m, n), r + 1) == Start(RowCounts(m, n), r) + RowCounts(m, n)[r]
    ensures LevelWindows(m, n, 0)[r] == Range(Start(RowCounts(m, n), r), Start(RowCounts(m, n), r + 1))
  {
    var c := RowCounts(m, n);
    StartInRange(m, n, r);
    StartStep(c, r);
    RowCountsPositive(m, n);
    WindowIsRange(Start(c, r), c[r], m);
  }

  lemma {:induction false} FlattenPrefixes(m: nat, n: nat, t: nat)
    requires 0 < n <= m && t <= n
    ensures Flatten(LevelWindows(m, n, 0)[..t]) == Range(0, Start(RowCounts(m, n), t))
    decreases t
  {
    var c := RowCounts(m, n);
    var ws := LevelWindows(m, n, 0);
    if t == 0 {
      assert c[..0] == [];
    } else {
      FlattenPrefixes(m, n, t - 1);
      var pre := ws[..t];
      assert pre[..t - 1] == ws[..t - 1];
      assert pre[t - 1] == ws[t - 1];
      BaselineWindow(m, n, t - 1);
      RangeConcat(0, Start(c, t - 1), Start(c, t));
    }
  }

  /** Without redundancy the windows, concatenated in rank order, are the rows
      0..m-1, each exactly once. */
  lemma BaselinePartitions(m: nat, n: nat)
    requires 0 < n <= m
    ensures Flatten(LevelWindows(m, n, 0)) == Range(0, m)
  {
    var c := RowCounts(m, n);
    FlattenPrefixes(m, n, n);
    assert LevelWindows(m, n, 0)[..n] == LevelWindows(m, n, 0);
    RowCountsSum(m, n);
    assert c[..n] == c;
  }

  lemma {:induction false} InFlatten(ws: seq<seq<nat>>, x: nat)
    requires x in Flatten(ws)
    ensures exists r, j :: 0 <= r < |ws| && 0 <= j < |ws[r]| && ws[r][j] == x
    decreases |ws|
  {
    var init := ws[..|ws| - 1];
    if x in Flatten(init) {
      InFlatten(init, x);
      var r, j :| 0 <= r < |init| && 0 <= j < |init[r]| && init[r][j] == x;
      assert ws[r][j] == x;
    } else {
      var last := ws[|ws| - 1];
      assert x in last;
      var j :| 0 <= j < |last| && last[j] == x;
    }
  }

  /** At any non-negative redundancy level every row is held by some rank,
      and the k-level window extends the baseline window. */
  lemma EveryRowHeld(m: nat, n: nat, k: int, row: nat)
    requires 0 < n <= m && k >= 0 && row < m
    ensures exists r :: 0 <= r < n && row in LevelWindows(m, n, k)[r]
  {
    BaselinePartitions(m, n);
    var ws0, ws := LevelWindows(m, n, 0), LevelWindows(m, n, k);
    assert row in Range(0, m) by {
      assert Range(0, m)[row] == row;
    }
    InFlatten(ws0, row);
    var r, j :| 0 <= r < n && 0 <= j < |ws0[r]| && ws0[r][j] == row;
    RowCountsPositive(m, n);
    assert ws[r][j] == row;
  }

  /** A window starting inside the system is the documented one: element j
      is row start + j reduced modulo m, the first element included, so
      every element is a row of the system. */
  lemma {:induction false} WindowElements(start: nat, len: int, m: nat)
    requires m > 0 && start < m
    ensures Window(start, len, m) == seq(if len >= 1 then len else 1, j => (start + j) % m)
    ensures forall j :: 0 <= j < |Window(start, len, m)| ==> Window(start, len, m)[j] < m
  {
    assert start % m == start;
    var w := Window(start, len, m);
    var d := seq(if len >= 1 then len else 1, j => (start + j) % m);
    assert w[0] == d[0];
    assert forall j :: 0 < j < |w| ==> w[j] == d[j];
  }
}
