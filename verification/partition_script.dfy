/** The Jacobi examples' partitioning script as it runs: for every redundancy
    level in the requested range it makes four passes over the ranks, writing
    each rank's rows of A, of b and of x_sol and finally its list of global
    row indices, one file per rank and pass. The row data is kept abstract
    (type parameters A, B, X); files are the sequence of artifacts in the
    order they are written. */
module PartitionScript {
  import opened Wrappers
  import opened Text
  import opened RowPartition

  /** The Python errors the script can stop with, and the argument error the
      corrected partitioner reports instead of writing a partial result.
      ValueError is mmwrite refusing a one-dimensional array. */
  datatype ScriptError = ZeroDivisionError | IndexError | ValueError | InvalidArgument

  /** The four files written for every (rank, level) pair. */
  datatype Kind = Matrix | Rhs | Solution | Indices

  datatype Content<A, B, X> =
    | MatrixRows(aRows: seq<A>)
    | RhsRows(bRows: seq<B>)
    | SolutionRows(xRows: seq<X>)
    | RowIndices(indices: seq<nat>)

  datatype Artifact<A, B, X> = Artifact(path: string, content: Content<A, B, X>)

  /** What a run leaves behind: the files written, in order, and the error it
      stopped with, if any. */
  datatype Outcome<A, B, X> = Outcome(written: seq<Artifact<A, B, X>>, error: Option<ScriptError>)

  function Infix(kind: Kind): string
  {
    match kind
    case Matrix => ""
    case Rhs => "rhs_"
    case Solution => "x_sol_"
    case Indices => "indices_"
  }

  /** machine_<rank>_row_count_<level>_<infix><system>. */
  function PartitionName(rank: nat, k: int, kind: Kind, system: string): string
  {
    "machine_" + NatToString(rank) + "_row_count_" + LevelName(k, kind, system)
  }

  /** The part of a file name after "_row_count_". */
  function LevelName(k: int, kind: Kind, system: string): string
  {
    IntToString(k) + "_" + Infix(kind) + system
  }

  function OutputPath(folder: string, rank: nat, k: int, kind: Kind, system: string): string
  {
    folder + "/" + PartitionName(rank, k, kind, system)
  }

  /** The name under which a Jacobi agent looks up one of its partitions:
      its machine number and the redundancy level it was started with,
      both rendered by std::to_string. */
  function LoadedName(machine: int, overlap: int, kind: Kind, matrix: string): string
  {
    var suffix := match kind
      case Matrix => "_"
      case Rhs => "_rhs_"
      case Solution => "_x_sol_"
      case Indices => "_indices_";
    "machine_" + IntToString(machine) + "_row_count_" + IntToString(overlap) + suffix + matrix
  }

  /** The agents' names are the script's names. */
  lemma LoadedNameMatches(machine: nat, overlap: int, kind: Kind, matrix: string)
    ensures LoadedName(machine, overlap, kind, matrix) == PartitionName(machine, overlap, kind, matrix)
  {
    var p := "machine_" + NatToString(machine) + "_row_count_";
    assert IntToString(machine) == NatToString(machine);
    NameAssoc(p, IntToString(overlap), Infix(kind), matrix);
  }

  lemma NameAssoc(p: string, level: string, infix: string, system: string)
    ensures p + level + ("_" + infix) + system == p + (level + "_" + infix + system)
  {
  }

  // ---------------------------------------------------------------------
  // The passes, as the loops are written.

  /** The global row the loops use for position `row` of a window: taken as
      is while it is inside the system and reduced modulo m otherwise. */
  function RowIndex(start: nat, row: nat, m: nat): nat
    requires m > 0
  {
    if start + row < m then start + row else (start + row) % m
  }

  /** The rows of one rank's extraction loop from `row` on, appended to
      `acc`: row start+row is taken directly while it is inside the system
      and reduced modulo m otherwise. None when an index is past the end of
      the source array. */
  function ExtendRows<T>(src: seq<T>, start: nat, row: nat, len: int, m: nat, acc: seq<T>): (r: Option<seq<T>>)
    requires m > 0 && row >= 1
    decreases len - row
  {
    if row >= len then Some(acc)
    else
      var i := RowIndex(start, row, m);
      if i >= |src| then None else ExtendRows(src, start, row + 1, len, m, acc + [src[i]])
  }

  /** One rank of the A, b or x_sol pass: the start row, then the rest. */
  function RankRows<T>(src: seq<T>, start: nat, len: int, m: nat): Option<seq<T>>
    requires m > 0
  {
    if start >= |src| then None else ExtendRows(src, start, 1, len, m, [src[start]])
  }

  /** The index list of one rank from `row` on, appended to `acc`. */
  function ExtendIndices(start: nat, row: nat, len: int, m: nat, acc: seq<nat>): (r: seq<nat>)
    requires m > 0 && row >= 1
    ensures row >= len ==> r == acc
    ensures row < len ==> r == acc + Window(start, len, m)[row..]
    decreases len - row
  {
    if row >= len then acc
    else
      var i := RowIndex(start, row, m);
      var r := ExtendIndices(start, row + 1, len, m, acc + [i]);
      WindowStep(start, row, len, m);
      r
  }

  /** One rank of the index pass: its window of global rows. */
  function RankIndices(start: nat, len: int, m: nat): (w: seq<nat>)
    requires m > 0
    ensures w == Window(start, len, m)
  {
    ExtendIndices(start, 1, len, m, [start])
  }

  /** What a row pass wrote before it stopped, and the error it stopped
      with, if any. */
  datatype Pass<T> = Pass(parts: seq<seq<T>>, stop: Option<ScriptError>)

  /** The A, b or x_sol pass over ranks r.. with the running start offset.
      A rank asked for fewer than one row reads only its start row, which
      stays one-dimensional (the reshape is for blocks of exactly one row),
      so mmwrite refuses it with a ValueError before writing. */
  function RowPass<T>(src: seq<T>, counts: seq<nat>, m: nat, k: int, r: nat, offset: nat): (p: Pass<T>)
    requires m > 0 && r <= |counts|
    decreases |counts| - r
  {
    if r == |counts| then Pass([], None)
    else
      match RankRows(src, offset, k + counts[r], m)
      case None => Pass([], Some(IndexError))
      case Some(rows) =>
        if k + counts[r] < 1 then Pass([], Some(ValueError))
        else
          var rest := RowPass(src, counts, m, k, r + 1, offset + counts[r]);
          Pass([rows] + rest.parts, rest.stop)
  }

  /** The index pass over ranks r.. with the running start offset. */
  function IndexPass(counts: seq<nat>, m: nat, k: int, r: nat, offset: nat): (ws: seq<seq<nat>>)
    requires m > 0 && r <= |counts|
    ensures |ws| == |counts| - r
    decreases |counts| - r
  {
    if r == |counts| then []
    else [RankIndices(offset, k + counts[r], m)] + IndexPass(counts, m, k, r + 1, offset + counts[r])
  }

  /** The files of one pass: part r goes to rank r's file of that kind. */
  function Files<T, A, B, X>(folder: string, system: string, k: int, kind: Kind,
                             parts: seq<seq<T>>, wrap: seq<T> -> Content<A, B, X>): (fs: seq<Artifact<A, B, X>>)
    ensures |fs| == |parts|
    ensures forall r :: 0 <= r < |fs| ==> fs[r].path == OutputPath(folder, r, k, kind, system)
  {
    seq(|parts|, r requires 0 <= r < |parts| => Artifact(OutputPath(folder, r, k, kind, system), wrap(parts[r])))
  }

  /** One redundancy level: the four passes, each restarting at offset 0. */
  function LevelRun<A, B, X>(a: seq<A>, b: seq<B>, x: seq<X>, counts: seq<nat>, m: nat, k: int,
                             folder: string, system: string): Outcome<A, B, X>
    requires m > 0
  {
    var pa := RowPass(a, counts, m, k, 0, 0);
    var fa := Files(folder, system, k, Matrix, pa.parts, (s: seq<A>) => MatrixRows(s));
    if pa.stop.Some? then Outcome(fa, pa.stop)
    else
      var pb := RowPass(b, counts, m, k, 0, 0);
      var fb := Files(folder, system, k, Rhs, pb.parts, (s: seq<B>) => RhsRows(s));
      if pb.stop.Some? then Outcome(fa + fb, pb.stop)
      else
        var px := RowPass(x, counts, m, k, 0, 0);
        var fx := Files(folder, system, k, Solution, px.parts, (s: seq<X>) => SolutionRows(s));
        if px.stop.Some? then Outcome(fa + fb + fx, px.stop)
        else
          var fi := Files(folder, system, k, Indices, IndexPass(counts, m, k, 0, 0), (s: seq<nat>) => RowIndices(s));
          Outcome(fa + fb + fx + fi, None)
  }

  /** Levels k..kLast, stopping at the first error. */
  function Levels<A, B, X>(a: seq<A>, b: seq<B>, x: seq<X>, counts: seq<nat>, m: nat, k: int, kLast: int,
                           folder: string, system: string): Outcome<A, B, X>
    requires m > 0
    decreases kLast + 1 - k
  {
    if k > kLast then Outcome([], None)
    else
      var level := LevelRun(a, b, x, counts, m, k, folder, system);
      if level.error.Some? then level
      else
        var rest := Levels(a, b, x, counts, m, k + 1, kLast, folder, system);
        Outcome(level.written + rest.written, rest.error)
  }

  /** The whole script for an m-row system (m = |a|) over n ranks and the
      redundancy levels kFirst..kLast. Counting rows modulo zero ranks fails
      at once; an empty system fails on the first A row it reads. */
  function Run<A, B, X>(a: seq<A>, b: seq<B>, x: seq<X>, kFirst: int, kLast: int, n: nat,
                        folder: string, system: string): (o: Outcome<A, B, X>)
    ensures o.error.Some? ==> o.error.value != InvalidArgument
  {
    var m := |a|;
    if n == 0 then
      if m == 0 then Outcome([], None) else Outcome([], Some(ZeroDivisionError))
    else if m == 0 then
      if kFirst <= kLast then Outcome([], Some(IndexError)) else Outcome([], None)
    else
      RunLevelsErrors(a, b, x, RowCounts(m, n), m, kFirst, kLast, folder, system);
      Levels(a, b, x, RowCounts(m, n), m, kFirst, kLast, folder, system)
  }

  /** The level loop stops only on a row index past the end of the source
      or on a block shorter than one row. */
  lemma {:induction false} RunLevelsErrors<A, B, X>(a: seq<A>, b: seq<B>, x: seq<X>, counts: seq<nat>, m: nat,
                                                  k: int, kLast: int, folder: string, system: string)
    requires m > 0
    ensures var o := Levels(a, b, x, counts, m, k, kLast, folder, system);
            o.error.Some? ==> o.error.value == IndexError || o.error.value == ValueError
    decreases kLast + 1 - k
  {
    if k <= kLast {
      RowPassErrors(a, counts, m, k, 0, 0);
      RowPassErrors(b, counts, m, k, 0, 0);
      RowPassErrors(x, counts, m, k, 0, 0);
      RunLevelsErrors(a, b, x, counts, m, k + 1, kLast, folder, system);
    }
  }

  lemma {:induction false} RowPassErrors<T>(src: seq<T>, counts: seq<nat>, m: nat, k: int, r: nat, offset: nat)
    requires m > 0 && r <= |counts|
    ensures var p := RowPass(src, counts, m, k, r, offset);
            p.stop.Some? ==> p.stop.value == IndexError || p.stop.value == ValueError
    decreases |counts| - r
  {
    if r < |counts| {
      RowPassErrors(src, counts, m, k, r + 1, offset + counts[r]);
    }
  }

  // ---------------------------------------------------------------------
  // The partition the script is meant to produce.

  predicate InRange<T>(src: seq<T>, w: seq<nat>)
  {
    forall j :: 0 <= j < |w| ==> w[j] < |src|
  }

  /** The entries of src at the rows listed in w, in that order. */
  function Select<T>(src: seq<T>, w: seq<nat>): (s: seq<T>)
    requires InRange(src, w)
    ensures |s| == |w|
  {
    seq(|w|, j requires 0 <= j < |w| => src[w[j]])
  }

  /** With no more ranks than rows every window lies inside the system. */
  lemma WindowInRange(m: nat, n: nat, k: int, r: nat)
    requires 0 < n <= m && r < n
    ensures forall j :: 0 <= j < |LevelWindows(m, n, k)[r]| ==> LevelWindows(m, n, k)[r][j] < m
  {
    StartInRange(m, n, r);
  }

  /** The content of rank r's file of the given kind at level k. */
  function PlannedContent<A, B, X>(a: seq<A>, b: seq<B>, x: seq<X>, n: nat, k: int, kind: Kind, r: nat): Content<A, B, X>
    requires 0 < n <= |a| <= |b| && |a| <= |x| && r < n
  {
    var w := LevelWindows(|a|, n, k)[r];
    WindowInRange(|a|, n, k, r);
    match kind
    case Matrix => MatrixRows(Select(a, w))
    case Rhs => RhsRows(Select(b, w))
    case Solution => SolutionRows(Select(x, w))
    case Indices => RowIndices(w)
  }

  function PlannedBlock<A, B, X>(a: seq<A>, b: seq<B>, x: seq<X>, n: nat, k: int, kind: Kind,
                                 folder: string, system: string): (fs: seq<Artifact<A, B, X>>)
    requires 0 < n <= |a| <= |b| && |a| <= |x|
    ensures |fs| == n
  {
    seq(n, r requires 0 <= r < n =>
      Artifact(OutputPath(folder, r, k, kind, system), PlannedContent(a, b, x, n, k, kind, r)))
  }

  function PlannedLevel<A, B, X>(a: seq<A>, b: seq<B>, x: seq<X>, n: nat, k: int,
                                 folder: string, system: string): seq<Artifact<A, B, X>>
    requires 0 < n <= |a| <= |b| && |a| <= |x|
  {
    PlannedBlock(a, b, x, n, k, Matrix, folder, system) + PlannedBlock(a, b, x, n, k, Rhs, folder, system)
      + PlannedBlock(a, b, x, n, k, Solution, folder, system) + PlannedBlock(a, b, x, n, k, Indices, folder, system)
  }

  function Planned<A, B, X>(a: seq<A>, b: seq<B>, x: seq<X>, k: int, kLast: int, n: nat,
                            folder: string, system: string): seq<Artifact<A, B, X>>
    requires 0 < n <= |a| <= |b| && |a| <= |x|
    decreases kLast + 1 - k
  {
    if k > kLast then [] else PlannedLevel(a, b, x, n, k, folder, system) + Planned(a, b, x, k + 1, kLast, n, folder, system)
  }

  // ---------------------------------------------------------------------
  // The passes compute the planned windows and rows.

  /** The index pass lists every rank's window, each starting at the
      baseline rows of the ranks before it, whatever the level. */
  lemma {:induction false} IndexPassWindows(counts: seq<nat>, m: nat, k: int, r: nat)
    requires 0 < m && r <= |counts|
    ensures IndexPass(counts, m, k, r, Start(counts, r)) == Windows(counts, m, k)[r..]
    decreases |counts| - r
  {
    if r < |counts| {
      var ws := Windows(counts, m, k);
      StartStep(counts, r);
      IndexPassWindows(counts, m, k, r + 1);
      assert ws[r..] == [ws[r]] + ws[r + 1..];
      assert IndexPass(counts, m, k, r, Start(counts, r))
          == [RankIndices(Start(counts, r), k + counts[r], m)] + IndexPass(counts, m, k, r + 1, Start(counts, r + 1));
    }
  }

  /** Every rank's index list starts at the rows the ranks before it hold at
      baseline, at every redundancy level. */
  lemma WindowStartsAtOffset(m: nat, n: nat, k: int, r: nat)
    requires 0 < n && 0 < m && r < n
    ensures IndexPass(RowCounts(m, n), m, k, 0, 0)[r] == Window(Sum(RowCounts(m, n)[..r]), k + RowCounts(m, n)[r], m)
    ensures |IndexPass(RowCounts(m, n), m, k, 0, 0)[r]| >= 1
    ensures IndexPass(RowCounts(m, n), m, k, 0, 0)[r][0] == Sum(RowCounts(m, n)[..r])
  {
    var c := RowCounts(m, n);
    assert c[..0] == [];
    IndexPassWindows(c, m, k, 0);
    assert Windows(c, m, k)[0..] == Windows(c, m, k);
  }

  lemma InRangeCons<T>(src: seq<T>, i: nat, w: seq<nat>)
    ensures InRange(src, [i] + w) <==> i < |src| && InRange(src, w)
  {
    if i < |src| && InRange(src, w) {
      forall j | 0 <= j < |w| + 1 ensures ([i] + w)[j] < |src| {
        if j > 0 { assert ([i] + w)[j] == w[j - 1]; }
      }
    }
    if InRange(src, [i] + w) {
      assert ([i] + w)[0] == i;
      forall j | 0 <= j < |w| ensures w[j] < |src| {
        assert ([i] + w)[j + 1] == w[j];
      }
    }
  }

  lemma SelectCons<T>(src: seq<T>, i: nat, w: seq<nat>)
    requires i < |src| && InRange(src, w)
    ensures InRange(src, [i] + w)
    ensures Select(src, [i] + w) == [src[i]] + Select(src, w)
  {
    InRangeCons(src, i, w);
  }

  /** The index the loops compute for `row` is window element `row`. */
  lemma WindowStep(start: nat, row: nat, len: int, m: nat)
    requires m > 0 && 1 <= row < len
    ensures Window(start, len, m)[row..] == [RowIndex(start, row, m)] + Window(start, len, m)[row + 1..]
  {
    if start + row < m {
      DivModUnique(start + row, m, 0, start + row);
    }
  }

  lemma {:induction false} ExtendRowsSelect<T>(src: seq<T>, start: nat, row: nat, len: int, m: nat, acc: seq<T>)
    requires m > 0 && 1 <= row < len
    ensures ExtendRows(src, start, row, len, m, acc).Some? <==> InRange(src, Window(start, len, m)[row..])
    ensures ExtendRows(src, start, row, len, m, acc).Some? ==>
              ExtendRows(src, start, row, len, m, acc).value == acc + Select(src, Window(start, len, m)[row..])
    decreases len - row
  {
    var w := Window(start, len, m)[row..];
    var w' := Window(start, len, m)[row + 1..];
    var i := RowIndex(start, row, m);
    WindowStep(start, row, len, m);
    assert w == [i] + w';
    InRangeCons(src, i, w');
    if i < |src| {
      var acc' := acc + [src[i]];
      assert ExtendRows(src, start, row, len, m, acc) == ExtendRows(src, start, row + 1, len, m, acc');
      if row + 1 == len {
        assert w' == [];
        SelectCons(src, i, w');
      } else {
        ExtendRowsSelect(src, start, row + 1, len, m, acc');
        if InRange(src, w') {
          SelectCons(src, i, w');
          assert acc' + Select(src, w') == acc + ([src[i]] + Select(src, w'));
        }
      }
    }
  }

  /** One rank's A, b or x_sol rows are the source entries at its window,
      and the pass fails exactly when the window leaves the source. */
  lemma RankRowsSelect<T>(src: seq<T>, start: nat, len: int, m: nat)
    requires m > 0
    ensures var w := Window(start, len, m);
            RankRows(src, start, len, m) == if InRange(src, w) then Some(Select(src, w)) else None
  {
    var w := Window(start, len, m);
    if start >= |src| {
      assert w[0] == start;
    } else if len <= 1 {
      assert w == [start];
      assert Select(src, w) == [src[start]];
    } else {
      ExtendRowsSelect(src, start, 1, len, m, [src[start]]);
      assert w == [start] + w[1..];
      if InRange(src, w[1..]) {
        assert InRange(src, w);
        assert Select(src, w) == [src[start]] + Select(src, w[1..]);
      } else {
        var j :| 0 <= j < |w[1..]| && w[1..][j] >= |src|;
        assert w[j + 1] == w[1..][j];
      }
    }
  }

  /** One step of a row pass: a rank whose window leaves the source stops
      the pass with an IndexError, a rank asked for fewer than one row stops
      it with a ValueError, and any other contributes its selected rows. */
  lemma RowPassStep<T>(src: seq<T>, counts: seq<nat>, m: nat, k: int, r: nat)
    requires 0 < m && r < |counts|
    ensures var w := Windows(counts, m, k)[r];
            var rest := RowPass(src, counts, m, k, r + 1, Start(counts, r + 1));
            RowPass(src, counts, m, k, r, Start(counts, r))
              == if !InRange(src, w) then Pass([], Some(IndexError))
                 else if k + counts[r] < 1 then Pass([], Some(ValueError))
                 else Pass([Select(src, w)] + rest.parts, rest.stop)
  {
    RankRowsSelect(src, Start(counts, r), k + counts[r], m);
    StartStep(counts, r);
  }

  /** The parts a row pass writes are the selected rows of consecutive
      ranks, each asked for at least one row and with its window inside the
      source. */
  lemma {:induction false} RowPassParts<T>(src: seq<T>, counts: seq<nat>, m: nat, k: int, r: nat)
    requires 0 < m && r <= |counts|
    ensures r + |RowPass(src, counts, m, k, r, Start(counts, r)).parts| <= |counts|
    ensures var p := RowPass(src, counts, m, k, r, Start(counts, r));
            forall j :: r <= j < r + |p.parts| ==>
              j < |counts| && k + counts[j] >= 1 && InRange(src, Windows(counts, m, k)[j])
              && p.parts[j - r] == Select(src, Windows(counts, m, k)[j])
    decreases |counts| - r
  {
    if r < |counts| {
      var ws := Windows(counts, m, k);
      RowPassStep(src, counts, m, k, r);
      if InRange(src, ws[r]) && k + counts[r] >= 1 {
        RowPassParts(src, counts, m, k, r + 1);
        var rest := RowPass(src, counts, m, k, r + 1, Start(counts, r + 1));
        var p := RowPass(src, counts, m, k, r, Start(counts, r));
        assert p.parts == [Select(src, ws[r])] + rest.parts;
        forall j | r <= j < r + |p.parts|
          ensures j < |counts| && k + counts[j] >= 1 && InRange(src, ws[j]) && p.parts[j - r] == Select(src, ws[j])
        {
          if j > r {
            assert r + 1 <= j < (r + 1) + |rest.parts|;
            assert k + counts[j] >= 1 && InRange(src, ws[j]) && rest.parts[j - (r + 1)] == Select(src, ws[j]);
            assert p.parts[j - r] == rest.parts[j - (r + 1)];
          }
        }
      }
    }
  }

  /** A row pass stops at the first rank whose window leaves the source,
      with an IndexError, or that is asked for fewer than one row, with a
      ValueError, and covers every rank when there is none. */
  lemma {:induction false} RowPassStop<T>(src: seq<T>, counts: seq<nat>, m: nat, k: int, r: nat)
    requires 0 < m && r <= |counts|
    ensures var p := RowPass(src, counts, m, k, r, Start(counts, r));
            var i := r + |p.parts|;
            p.stop.Some? ==> (i < |counts| &&
              if InRange(src, Windows(counts, m, k)[i]) then k + counts[i] < 1 && p.stop == Some(ValueError)
              else p.stop == Some(IndexError))
    ensures var p := RowPass(src, counts, m, k, r, Start(counts, r));
            p.stop.None? ==> |p.parts| == |counts| - r
    decreases |counts| - r
  {
    if r < |counts| {
      RowPassStep(src, counts, m, k, r);
      if InRange(src, Windows(counts, m, k)[r]) && k + counts[r] >= 1 {
        RowPassStop(src, counts, m, k, r + 1);
      }
    }
  }

  /** A row pass stops exactly when some rank's window leaves the source or
      some rank is asked for fewer than one row. */
  lemma RowPassFails<T>(src: seq<T>, counts: seq<nat>, m: nat, k: int)
    requires 0 < m
    ensures RowPass(src, counts, m, k, 0, 0).stop.Some? <==>
              exists i :: 0 <= i < |counts| && (!InRange(src, Windows(counts, m, k)[i]) || k + counts[i] < 1)
  {
    assert counts[..0] == [];
    RowPassParts(src, counts, m, k, 0);
    RowPassStop(src, counts, m, k, 0);
    var p := RowPass(src, counts, m, k, 0, 0);
    var ws := Windows(counts, m, k);
    if p.stop.None? {
      forall i | 0 <= i < |counts| ensures InRange(src, ws[i]) && k + counts[i] >= 1 {
      }
    }
  }

  /** When ranks r..q-1 all fit inside the source and rank q does not, the
      pass from r writes the selections of r..q-1 and stops at q with the
      error that rank meets. */
  lemma {:induction false} PassStopsAt<T>(src: seq<T>, counts: seq<nat>, m: nat, k: int, r: nat, q: nat)
    requires 0 < m && r <= q <= |counts|
    requires forall j :: r <= j < q ==> InRange(src, Windows(counts, m, k)[j]) && k + counts[j] >= 1
    requires q < |counts| ==> !InRange(src, Windows(counts, m, k)[q]) || k + counts[q] < 1
    ensures var p := RowPass(src, counts, m, k, r, Start(counts, r));
            |p.parts| == q - r
            && p.stop == (if q == |counts| then None
                          else if InRange(src, Windows(counts, m, k)[q]) then Some(ValueError)
                          else Some(IndexError))
            && forall j :: r <= j < q ==> p.parts[j - r] == Select(src, Windows(counts, m, k)[j])
    decreases q - r
  {
    if r < |counts| {
      RowPassStep(src, counts, m, k, r);
      if r < q {
        PassStopsAt(src, counts, m, k, r + 1, q);
        var ws := Windows(counts, m, k);
        var rest := RowPass(src, counts, m, k, r + 1, Start(counts, r + 1));
        var p := RowPass(src, counts, m, k, r, Start(counts, r));
        assert p.parts == [Select(src, ws[r])] + rest.parts;
        forall j | r <= j < q ensures p.parts[j - r] == Select(src, ws[j]) {
          if j > r {
            assert p.parts[j - r] == rest.parts[j - (r + 1)];
          }
        }
      }
    }
  }

  lemma AllInRange<T>(src: seq<T>, m: nat, n: nat, k: int)
    requires 0 < n <= m <= |src|
    ensures forall i :: 0 <= i < n ==> InRange(src, LevelWindows(m, n, k)[i])
  {
    forall i | 0 <= i < n ensures InRange(src, LevelWindows(m, n, k)[i]) {
      WindowInRange(m, n, k, i);
    }
  }

  /** Level k asks every rank for at least one row: the shortest baseline
      block has m / n rows. */
  predicate LevelFits(m: nat, n: nat, k: int)
    requires n > 0
  {
    k + m / n >= 1
  }

  /** How many ranks, from rank 0 on, are asked for at least one row at
      level k: all of them, or the first m % n, which hold one baseline row
      more than the rest, or none. */
  function FittingRanks(m: nat, n: nat, k: int): nat
    requires n > 0
  {
    if k + m / n >= 1 then n else if k + m / n + 1 >= 1 then m % n else 0
  }

  /** The ranks asked for at least one row are exactly those below
      FittingRanks, and the level fits exactly when that is every rank. */
  lemma FittingRanksIff(m: nat, n: nat, k: int)
    requires n > 0
    ensures FittingRanks(m, n, k) <= n
    ensures LevelFits(m, n, k) <==> FittingRanks(m, n, k) == n
    ensures forall r :: 0 <= r < n ==> (k + RowCounts(m, n)[r] >= 1 <==> r < FittingRanks(m, n, k))
  {
    RowCountsRoundRobin(m, n);
  }

  /** With no more ranks than rows every level from 0 up fits. */
  lemma NonNegativeLevelFits(m: nat, n: nat, k: int)
    requires 0 < n <= m && k >= 0
    ensures LevelFits(m, n, k)
  {
    RowCountsRoundRobin(m, n);
    RowCountsPositive(m, n);
    assert RowCounts(m, n)[n - 1] == m / n;
  }

  /** A row pass over windows inside the source writes the planned files of
      the ranks asked for at least one row, and stops with a ValueError at
      the first rank that is not. */
  lemma PassFiles<T, A, B, X>(src: seq<T>, a: seq<A>, b: seq<B>, x: seq<X>, n: nat, k: int, kind: Kind,
                             folder: string, system: string, wrap: seq<T> -> Content<A, B, X>)
    requires 0 < n <= |a| <= |b| && |a| <= |x| && |a| <= |src|
    requires forall r :: 0 <= r < n ==> InRange(src, LevelWindows(|a|, n, k)[r])
    requires forall r :: 0 <= r < n ==> wrap(Select(src, LevelWindows(|a|, n, k)[r])) == PlannedContent(a, b, x, n, k, kind, r)
    ensures var p := RowPass(src, RowCounts(|a|, n), |a|, k, 0, 0);
            p.stop == (if LevelFits(|a|, n, k) then None else Some(ValueError))
            && Files(folder, system, k, kind, p.parts, wrap) == PlannedBlock(a, b, x, n, k, kind, folder, system)[..FittingRanks(|a|, n, k)]
  {
    LevelPass(src, |a|, n, k);
    var p := RowPass(src, RowCounts(|a|, n), |a|, k, 0, 0);
    forall r | 0 <= r < |p.parts| ensures wrap(p.parts[r]) == PlannedContent(a, b, x, n, k, kind, r) {
      assert p.parts[r] == Select(src, LevelWindows(|a|, n, k)[r]);
    }
    FilesMatchPlan(a, b, x, n, k, kind, folder, system, p.parts, wrap);
  }

  /** With every window inside the source, a level's pass selects the
      windows of the ranks that get a row and stops with mmwrite's
      ValueError at the first that does not. */
  lemma LevelPass<T>(src: seq<T>, m: nat, n: nat, k: int)
    requires 0 < n <= m
    requires forall r :: 0 <= r < n ==> InRange(src, LevelWindows(m, n, k)[r])
    ensures var p := RowPass(src, RowCounts(m, n), m, k, 0, 0);
            |p.parts| == FittingRanks(m, n, k) <= n
            && p.stop == (if LevelFits(m, n, k) then None else Some(ValueError))
            && forall r :: 0 <= r < |p.parts| ==> p.parts[r] == Select(src, LevelWindows(m, n, k)[r])
  {
    var c := RowCounts(m, n);
    var ws := Windows(c, m, k);
    assert ws == LevelWindows(m, n, k);
    FittingRanksIff(m, n, k);
    assert c[..0] == [];
    var q := FittingRanks(m, n, k);
    PassStopsAt(src, c, m, k, 0, q);
    var p := RowPass(src, c, m, k, 0, 0);
    forall r | 0 <= r < q ensures p.parts[r] == Select(src, ws[r]) {
      assert p.parts[r - 0] == Select(src, ws[r]);
    }
  }

  /** Parts whose contents are the planned ones make the first |parts|
      planned files. */
  lemma FilesMatchPlan<T, A, B, X>(a: seq<A>, b: seq<B>, x: seq<X>, n: nat, k: int, kind: Kind,
                                   folder: string, system: string, parts: seq<seq<T>>, wrap: seq<T> -> Content<A, B, X>)
    requires 0 < n <= |a| <= |b| && |a| <= |x| && |parts| <= n
    requires forall r :: 0 <= r < |parts| ==> wrap(parts[r]) == PlannedContent(a, b, x, n, k, kind, r)
    ensures Files(folder, system, k, kind, parts, wrap) == PlannedBlock(a, b, x, n, k, kind, folder, system)[..|parts|]
  {
  }

  /** What a level that asks some rank for fewer than one row leaves
      behind: the A files of the ranks before it, then mmwrite's
      ValueError. */
  function ShortLevelOutcome<A, B, X>(a: seq<A>, b: seq<B>, x: seq<X>, n: nat, k: int,
                                      folder: string, system: string): (o: Outcome<A, B, X>)
    requires 0 < n <= |a| <= |b| && |a| <= |x|
    ensures |o.written| == FittingRanks(|a|, n, k) && o.error == Some(ValueError)
  {
    FittingRanksIff(|a|, n, k);
    Outcome(PlannedBlock(a, b, x, n, k, Matrix, folder, system)[..FittingRanks(|a|, n, k)], Some(ValueError))
  }

  /** With no more ranks than rows, a level that asks every rank for a row
      writes exactly the planned files; any other stops in its A pass. */
  lemma LevelRunPlanned<A, B, X>(a: seq<A>, b: seq<B>, x: seq<X>, n: nat, k: int, folder: string, system: string)
    requires 0 < n <= |a| <= |b| && |a| <= |x|
    ensures LevelRun(a, b, x, RowCounts(|a|, n), |a|, k, folder, system)
            == if LevelFits(|a|, n, k) then Outcome(PlannedLevel(a, b, x, n, k, folder, system), None)
               else ShortLevelOutcome(a, b, x, n, k, folder, system)
  {
    var m := |a|;
    var ws := LevelWindows(m, n, k);
    AllInRange(a, m, n, k);
    AllInRange(b, m, n, k);
    AllInRange(x, m, n, k);
    forall r | 0 <= r < n
      ensures MatrixRows(Select(a, ws[r])) == PlannedContent(a, b, x, n, k, Matrix, r)
      ensures RhsRows(Select(b, ws[r])) == PlannedContent(a, b, x, n, k, Rhs, r)
      ensures SolutionRows(Select(x, ws[r])) == PlannedContent(a, b, x, n, k, Solution, r)
    {
    }
    FittingRanksIff(m, n, k);
    PassFiles(a, a, b, x, n, k, Matrix, folder, system, (s: seq<A>) => MatrixRows(s));
    if LevelFits(m, n, k) {
      PassFiles(b, a, b, x, n, k, Rhs, folder, system, (s: seq<B>) => RhsRows(s));
      PassFiles(x, a, b, x, n, k, Solution, folder, system, (s: seq<X>) => SolutionRows(s));
      assert PlannedBlock(a, b, x, n, k, Matrix, folder, system)[..n] == PlannedBlock(a, b, x, n, k, Matrix, folder, system);
      assert PlannedBlock(a, b, x, n, k, Rhs, folder, system)[..n] == PlannedBlock(a, b, x, n, k, Rhs, folder, system);
      assert PlannedBlock(a, b, x, n, k, Solution, folder, system)[..n] == PlannedBlock(a, b, x, n, k, Solution, folder, system);
      assert RowCounts(m, n)[..0] == [];
      IndexPassWindows(RowCounts(m, n), m, k, 0);
      assert Windows(RowCounts(m, n), m, k)[0..] == Windows(RowCounts(m, n), m, k);
      var fi := Files(folder, system, k, Indices, IndexPass(RowCounts(m, n), m, k, 0, 0), (s: seq<nat>) => RowIndices(s));
      assert fi == PlannedBlock(a, b, x, n, k, Indices, folder, system);
    }
  }

  /** Levels k..kLast write the planned files when level k asks every rank
      for a row, since every later level then does too; otherwise the loop
      stops in level k. */
  lemma {:induction false} LevelsPlanned<A, B, X>(a: seq<A>, b: seq<B>, x: seq<X>, k: int, kLast: int, n: nat,
                                                folder: string, system: string)
    requires 0 < n <= |a| <= |b| && |a| <= |x|
    ensures Levels(a, b, x, RowCounts(|a|, n), |a|, k, kLast, folder, system)
            == if k > kLast || LevelFits(|a|, n, k) then Outcome(Planned(a, b, x, k, kLast, n, folder, system), None)
               else ShortLevelOutcome(a, b, x, n, k, folder, system)
    decreases kLast + 1 - k
  {
    if k <= kLast {
      LevelRunPlanned(a, b, x, n, k, folder, system);
      if LevelFits(|a|, n, k) {
        assert LevelFits(|a|, n, k + 1);
        LevelsPlanned(a, b, x, k + 1, kLast, n, folder, system);
      }
    }
  }

  /** With at least one rank, no more ranks than rows, and b and x_sol at
      least as long as A, the script writes exactly the planned partition
      when its first level asks every rank for a row (every level from 0 up
      does, NonNegativeLevelFits), and otherwise stops in that level with a
      ValueError. */
  lemma RunMatchesPlan<A, B, X>(a: seq<A>, b: seq<B>, x: seq<X>, kFirst: int, kLast: int, n: nat,
                                folder: string, system: string)
    requires 0 < n <= |a| <= |b| && |a| <= |x|
    ensures Run(a, b, x, kFirst, kLast, n, folder, system)
            == if kFirst > kLast || LevelFits(|a|, n, kFirst) then Outcome(Planned(a, b, x, kFirst, kLast, n, folder, system), None)
               else ShortLevelOutcome(a, b, x, n, kFirst, folder, system)
  {
    LevelsPlanned(a, b, x, kFirst, kLast, n, folder, system);
  }

  /** With more ranks than rows, the windows of ranks 0..m-1 lie inside the
      system and rank m's starts at row m. */
  lemma IdleWindows(m: nat, n: nat, k: int)
    requires 0 < m < n
    ensures forall i :: 0 <= i < m ==> forall j :: 0 <= j < |LevelWindows(m, n, k)[i]| ==> LevelWindows(m, n, k)[i][j] < m
    ensures LevelWindows(m, n, k)[m][0] == m
  {
    StartBeyond(m, n);
  }

  /** With more ranks than rows the A pass writes the first m ranks and
      then fails with an IndexError on rank m, whose start is row m; at a
      negative level rank 0 already has no row and mmwrite refuses it. */
  lemma IdleRankPass<A>(a: seq<A>, n: nat, k: int)
    requires 0 < |a| < n
    ensures var p := RowPass(a, RowCounts(|a|, n), |a|, k, 0, 0);
            if k >= 0 then p.stop == Some(IndexError) && |p.parts| == |a|
            else p.stop == Some(ValueError) && p.parts == []
  {
    if k >= 0 {
      IdleRankPassFrom(a, n, k);
    } else {
      IdleRankPassNegative(a, n, k);
    }
  }

  lemma IdleRankPassFrom<A>(a: seq<A>, n: nat, k: int)
    requires 0 < |a| < n && k >= 0
    ensures var p := RowPass(a, RowCounts(|a|, n), |a|, k, 0, 0);
            p.stop == Some(IndexError) && |p.parts| == |a|
  {
    var m := |a|;
    var c := RowCounts(m, n);
    var ws := LevelWindows(m, n, k);
    IdleWindows(m, n, k);
    RowCountsRoundRobin(m, n);
    DivModUnique(m, n, 0, m);
    assert c[..0] == [];
    assert !InRange(a, ws[m]);
    forall j | 0 <= j < m ensures InRange(a, ws[j]) && k + c[j] >= 1 {
      assert c[j] == 1;
    }
    PassStopsAt(a, c, m, k, 0, m);
  }

  lemma IdleRankPassNegative<A>(a: seq<A>, n: nat, k: int)
    requires 0 < |a| < n && k < 0
    ensures var p := RowPass(a, RowCounts(|a|, n), |a|, k, 0, 0);
            p.stop == Some(ValueError) && p.parts == []
  {
    var m := |a|;
    var c := RowCounts(m, n);
    RowCountsRoundRobin(m, n);
    assert c[0] == 1;
    assert c[..0] == [];
    RowPassStep(a, c, m, k, 0);
    assert Windows(c, m, k)[0] == [0];
  }

  /** More ranks than rows, as written: the first rank without baseline rows
      reads row m of A and the run stops with an IndexError, after the A
      files of the m ranks before it are already written. At a negative
      first level rank 0 is asked for no row and the run stops at once with
      a ValueError. */
  lemma RunWithIdleRanks<A, B, X>(a: seq<A>, b: seq<B>, x: seq<X>, kFirst: int, kLast: int, n: nat,
                                  folder: string, system: string)
    requires 0 < |a| < n && kFirst <= kLast
    ensures Run(a, b, x, kFirst, kLast, n, folder, system).error == Some(if kFirst >= 0 then IndexError else ValueError)
    ensures |Run(a, b, x, kFirst, kLast, n, folder, system).written| == if kFirst >= 0 then |a| else 0
    ensures forall i :: 0 <= i < |Run(a, b, x, kFirst, kLast, n, folder, system).written| ==>
              Run(a, b, x, kFirst, kLast, n, folder, system).written[i].path == OutputPath(folder, i, kFirst, Matrix, system)
  {
    IdleRankPass(a, n, kFirst);
    var o := LevelRun(a, b, x, RowCounts(|a|, n), |a|, kFirst, folder, system);
    assert Run(a, b, x, kFirst, kLast, n, folder, system) == o;
  }

  /** An empty system over some ranks stops on the first A row, before any
      file is written. */
  lemma RunOnEmptySystem<A, B, X>(a: seq<A>, b: seq<B>, x: seq<X>, kFirst: int, kLast: int, n: nat,
                                  folder: string, system: string)
    requires |a| == 0 < n && kFirst <= kLast
    ensures Run(a, b, x, kFirst, kLast, n, folder, system) == Outcome([], Some(IndexError))
  {
  }

  /** Ten rows over three ranks at level -3: rank 0 is asked for one row
      and its A file is written, rank 1 for none, and mmwrite stops the
      script with a ValueError. */
  lemma NegativeLevelStopsAtWrite<A, B, X>(a: seq<A>, b: seq<B>, x: seq<X>, folder: string, system: string)
    requires |a| == 10 && |a| <= |b| && |a| <= |x|
    ensures Run(a, b, x, -3, -3, 3, folder, system).error == Some(ValueError)
    ensures Run(a, b, x, -3, -3, 3, folder, system).written == [Artifact(OutputPath(folder, 0, -3, Matrix, system), PlannedContent(a, b, x, 3, -3, Matrix, 0))]
  {
    RunMatchesPlan(a, b, x, -3, -3, 3, folder, system);
    assert !LevelFits(10, 3, -3) && FittingRanks(10, 3, -3) == 1;
  }

  /** The partitioner with the argument check done before anything is
      written: no ranks, more ranks than rows, or a negative first level is
      rejected outright, and a run that stops on a short b or x_sol leaves
      no files behind. */
  function Partition<A, B, X>(a: seq<A>, b: seq<B>, x: seq<X>, kFirst: int, kLast: int, n: nat,
                              folder: string, system: string): (r: Result<seq<Artifact<A, B, X>>, ScriptError>)
    ensures r.Err? && r.error == InvalidArgument <==> n == 0 || n > |a| || kFirst < 0
    ensures r.Ok? ==> r.value == Run(a, b, x, kFirst, kLast, n, folder, system).written
    ensures r.Ok? <==> 0 < n <= |a| && 0 <= kFirst && Run(a, b, x, kFirst, kLast, n, folder, system).error.None?
  {
    if n == 0 || n > |a| || kFirst < 0 then Err(InvalidArgument)
    else
      var o := Run(a, b, x, kFirst, kLast, n, folder, system);
      if o.error.Some? then Err(o.error.value) else Ok(o.written)
  }

  /** The corrected partitioner writes the planned partition on every valid
      input and nothing at all otherwise. */
  lemma PartitionPlanned<A, B, X>(a: seq<A>, b: seq<B>, x: seq<X>, kFirst: int, kLast: int, n: nat,
                                  folder: string, system: string)
    requires |a| <= |b| && |a| <= |x|
    ensures 0 < n <= |a| && 0 <= kFirst ==> Partition(a, b, x, kFirst, kLast, n, folder, system) == Ok(Planned(a, b, x, kFirst, kLast, n, folder, system))
    ensures n > |a| || kFirst < 0 ==> Partition(a, b, x, kFirst, kLast, n, folder, system) == Err(InvalidArgument)
  {
    if 0 < n <= |a| && 0 <= kFirst {
      NonNegativeLevelFits(|a|, n, kFirst);
      RunMatchesPlan(a, b, x, kFirst, kLast, n, folder, system);
    }
  }

  // ---------------------------------------------------------------------
  // File names.

  lemma InfixInjective(k1: Kind, k2: Kind, system: string)
    requires Infix(k1) + system == Infix(k2) + system
    ensures k1 == k2
  {
    assert |Infix(k1)| == |Infix(k2)|;
  }

  lemma Assoc4(p: string, q: string, r: string, t: string)
    ensures p + q + r + t == p + (q + r + t)
  {
  }

  lemma IntNumeralPrefix(a: int, b: int, u: string, v: string)
    requires IntToString(a) + "_" + u == IntToString(b) + "_" + v
    ensures a == b && u == v
  {
    var s := IntToString(a) + "_" + u;
    assert s[0] == IntToString(a)[0] && s[0] == IntToString(b)[0];
    assert (a < 0) == (b < 0);
    if a < 0 {
      var na, nb := NatToString(-a), NatToString(-b);
      Assoc4("-", na, "_", u);
      Assoc4("-", nb, "_", v);
      StripPrefix("-", na + "_" + u, nb + "_" + v);
      NumeralPrefix(na, nb, u, v, '_');
      NatToStringInjective(-a, -b);
    } else {
      NumeralPrefix(NatToString(a), NatToString(b), u, v, '_');
      NatToStringInjective(a, b);
    }
  }

  lemma NameShape(digits: string, rest: string)
    ensures "machine_" + digits + "_row_count_" + rest == "machine_" + (digits + "_" + ("row_count_" + rest))
  {
  }

  lemma LevelShape(level: string, infix: string, system: string)
    ensures level + "_" + infix + system == level + "_" + (infix + system)
  {
  }

  lemma StripPrefix(p: string, u: string, v: string)
    requires p + u == p + v
    ensures u == v
  {
    assert u == (p + u)[|p|..];
    assert v == (p + v)[|p|..];
  }

  /** Different (rank, level, kind) triples get different file names, so no
      partition file overwrites another. */
  lemma PartitionNameInjective(r1: nat, k1: int, kind1: Kind, r2: nat, k2: int, kind2: Kind, system: string)
    requires PartitionName(r1, k1, kind1, system) == PartitionName(r2, k2, kind2, system)
    ensures r1 == r2 && k1 == k2 && kind1 == kind2
  {
    var l1 := LevelName(k1, kind1, system);
    var l2 := LevelName(k2, kind2, system);
    NameShape(NatToString(r1), l1);
    NameShape(NatToString(r2), l2);
    StripPrefix("machine_", NatToString(r1) + "_" + ("row_count_" + l1), NatToString(r2) + "_" + ("row_count_" + l2));
    NumeralPrefix(NatToString(r1), NatToString(r2), "row_count_" + l1, "row_count_" + l2, '_');
    NatToStringInjective(r1, r2);
    StripPrefix("row_count_", l1, l2);
    LevelShape(IntToString(k1), Infix(kind1), system);
    LevelShape(IntToString(k2), Infix(kind2), system);
    IntNumeralPrefix(k1, k2, Infix(kind1) + system, Infix(kind2) + system);
    InfixInjective(kind1, kind2, system);
  }

  lemma OutputPathInjective(folder: string, r1: nat, k1: int, kind1: Kind, r2: nat, k2: int, kind2: Kind, system: string)
    requires OutputPath(folder, r1, k1, kind1, system) == OutputPath(folder, r2, k2, kind2, system)
    ensures r1 == r2 && k1 == k2 && kind1 == kind2
  {
    StripPrefix(folder + "/", PartitionName(r1, k1, kind1, system), PartitionName(r2, k2, kind2, system));
    PartitionNameInjective(r1, k1, kind1, r2, k2, kind2, system);
  }

  // ---------------------------------------------------------------------
  // Every planned file has its own name, and every agent finds its files.

  predicate DistinctPaths<A, B, X>(fs: seq<Artifact<A, B, X>>)
  {
    forall i, j :: 0 <= i < j < |fs| ==> fs[i].path != fs[j].path
  }

  /** The path is a partition file of some rank for a level in lo..hi. */
  ghost predicate NamedFor(path: string, folder: string, system: string, lo: int, hi: int)
  {
    exists r: nat, k: int, kind: Kind :: lo <= k <= hi && path == OutputPath(folder, r, k, kind, system)
  }

  /** Every file in fs is named for a level in lo..hi. */
  ghost predicate LevelsBetween<A, B, X>(fs: seq<Artifact<A, B, X>>, folder: string, system: string, lo: int, hi: int)
  {
    forall i :: 0 <= i < |fs| ==> NamedFor(fs[i].path, folder, system, lo, hi)
  }

  /** No file of s has the name of a file of t. */
  predicate Apart<A, B, X>(s: seq<Artifact<A, B, X>>, t: seq<Artifact<A, B, X>>)
  {
    forall i, j :: 0 <= i < |s| && 0 <= j < |t| ==> s[i].path != t[j].path
  }

  lemma ApartConcat<A, B, X>(s1: seq<Artifact<A, B, X>>, s2: seq<Artifact<A, B, X>>, t: seq<Artifact<A, B, X>>)
    requires Apart(s1, t) && Apart(s2, t)
    ensures Apart(s1 + s2, t)
  {
    var u := s1 + s2;
    forall i, j | 0 <= i < |u| && 0 <= j < |t| ensures u[i].path != t[j].path {
      if i < |s1| { assert u[i] == s1[i]; } else { assert u[i] == s2[i - |s1|]; }
    }
  }

  lemma DistinctConcat<A, B, X>(s: seq<Artifact<A, B, X>>, t: seq<Artifact<A, B, X>>)
    requires DistinctPaths(s) && DistinctPaths(t) && Apart(s, t)
    ensures DistinctPaths(s + t)
  {
    var u := s + t;
    forall i, j | 0 <= i < j < |u| ensures u[i].path != u[j].path {
      if j < |s| {
        assert u[i] == s[i] && u[j] == s[j];
      } else if i >= |s| {
        assert u[i] == t[i - |s|] && u[j] == t[j - |s|];
      } else {
        assert u[i] == s[i] && u[j] == t[j - |s|];
      }
    }
  }

  lemma BlockDistinct<A, B, X>(a: seq<A>, b: seq<B>, x: seq<X>, n: nat, k: int, kind: Kind, folder: string, system: string)
    requires 0 < n <= |a| <= |b| && |a| <= |x|
    ensures DistinctPaths(PlannedBlock(a, b, x, n, k, kind, folder, system))
  {
    var fs := PlannedBlock(a, b, x, n, k, kind, folder, system);
    forall i, j | 0 <= i < j < |fs| ensures fs[i].path != fs[j].path {
      if fs[i].path == fs[j].path {
        OutputPathInjective(folder, i, k, kind, j, k, kind, system);
      }
    }
  }

  lemma BlocksDisjoint<A, B, X>(a: seq<A>, b: seq<B>, x: seq<X>, n: nat, k1: int, kind1: Kind, k2: int, kind2: Kind,
                                folder: string, system: string)
    requires 0 < n <= |a| <= |b| && |a| <= |x|
    requires k1 != k2 || kind1 != kind2
    ensures Apart(PlannedBlock(a, b, x, n, k1, kind1, folder, system), PlannedBlock(a, b, x, n, k2, kind2, folder, system))
  {
    var f1, f2 := PlannedBlock(a, b, x, n, k1, kind1, folder, system), PlannedBlock(a, b, x, n, k2, kind2, folder, system);
    forall i, j | 0 <= i < |f1| && 0 <= j < |f2| ensures f1[i].path != f2[j].path {
      if f1[i].path == f2[j].path {
        OutputPathInjective(folder, i, k1, kind1, j, k2, kind2, system);
      }
    }
  }

  /** The four files of one level have pairwise different names. */
  lemma LevelDistinct<A, B, X>(a: seq<A>, b: seq<B>, x: seq<X>, n: nat, k: int, folder: string, system: string)
    requires 0 < n <= |a| <= |b| && |a| <= |x|
    ensures DistinctPaths(PlannedLevel(a, b, x, n, k, folder, system))
  {
    var fm := PlannedBlock(a, b, x, n, k, Matrix, folder, system);
    var fr := PlannedBlock(a, b, x, n, k, Rhs, folder, system);
    var fs := PlannedBlock(a, b, x, n, k, Solution, folder, system);
    var fi := PlannedBlock(a, b, x, n, k, Indices, folder, system);
    BlockDistinct(a, b, x, n, k, Matrix, folder, system);
    BlockDistinct(a, b, x, n, k, Rhs, folder, system);
    BlockDistinct(a, b, x, n, k, Solution, folder, system);
    BlockDistinct(a, b, x, n, k, Indices, folder, system);
    BlocksDisjoint(a, b, x, n, k, Matrix, k, Rhs, folder, system);
    DistinctConcat(fm, fr);
    BlocksDisjoint(a, b, x, n, k, Matrix, k, Solution, folder, system);
    BlocksDisjoint(a, b, x, n, k, Rhs, k, Solution, folder, system);
    ApartConcat(fm, fr, fs);
    DistinctConcat(fm + fr, fs);
    BlocksDisjoint(a, b, x, n, k, Matrix, k, Indices, folder, system);
    BlocksDisjoint(a, b, x, n, k, Rhs, k, Indices, folder, system);
    BlocksDisjoint(a, b, x, n, k, Solution, k, Indices, folder, system);
    ApartConcat(fm, fr, fi);
    ApartConcat(fm + fr, fs, fi);
    DistinctConcat(fm + fr + fs, fi);
  }

  lemma LevelPaths<A, B, X>(a: seq<A>, b: seq<B>, x: seq<X>, n: nat, k: int, folder: string, system: string)
    requires 0 < n <= |a| <= |b| && |a| <= |x|
    ensures LevelsBetween(PlannedLevel(a, b, x, n, k, folder, system), folder, system, k, k)
  {
    var fs := PlannedLevel(a, b, x, n, k, folder, system);
    forall i | 0 <= i < |fs| ensures NamedFor(fs[i].path, folder, system, k, k) {
      if i < n { assert fs[i].path == OutputPath(folder, i, k, Matrix, system); }
      else if i < 2 * n { assert fs[i].path == OutputPath(folder, i - n, k, Rhs, system); }
      else if i < 3 * n { assert fs[i].path == OutputPath(folder, i - 2 * n, k, Solution, system); }
      else { assert fs[i].path == OutputPath(folder, i - 3 * n, k, Indices, system); }
    }
    assert LevelsBetween(fs, folder, system, k, k);
  }

  /** Files named for level k and files named for later levels never share
      a name. */
  lemma LevelsApart<A, B, X>(head: seq<Artifact<A, B, X>>, tail: seq<Artifact<A, B, X>>, folder: string, system: string,
                             k: int, kLast: int)
    requires LevelsBetween(head, folder, system, k, k)
    requires LevelsBetween(tail, folder, system, k + 1, kLast)
    ensures Apart(head, tail)
  {
    forall i, j | 0 <= i < |head| && 0 <= j < |tail| ensures head[i].path != tail[j].path {
      assert NamedFor(head[i].path, folder, system, k, k);
      assert NamedFor(tail[j].path, folder, system, k + 1, kLast);
      var r1: nat, k1: int, kind1: Kind :| k <= k1 <= k && head[i].path == OutputPath(folder, r1, k1, kind1, system);
      var r2: nat, k2: int, kind2: Kind :| k + 1 <= k2 <= kLast && tail[j].path == OutputPath(folder, r2, k2, kind2, system);
      if head[i].path == tail[j].path {
        OutputPathInjective(folder, r1, k1, kind1, r2, k2, kind2, system);
      }
    }
  }

  /** Every file of s named for a level in lo..hi is named for one in the
      wider range lo'..hi'. */
  lemma NamedForWiden(path: string, folder: string, system: string, lo: int, hi: int, lo': int, hi': int)
    requires NamedFor(path, folder, system, lo, hi)
    requires lo' <= lo && hi <= hi'
    ensures NamedFor(path, folder, system, lo', hi')
  {
    var r: nat, k: int, kind: Kind :| lo <= k <= hi && path == OutputPath(folder, r, k, kind, system);
    assert lo' <= k <= hi' && path == OutputPath(folder, r, k, kind, system);
  }

  lemma LevelsConcat<A, B, X>(head: seq<Artifact<A, B, X>>, tail: seq<Artifact<A, B, X>>, folder: string, system: string,
                              k: int, kLast: int)
    requires LevelsBetween(head, folder, system, k, k)
    requires LevelsBetween(tail, folder, system, k + 1, kLast)
    requires k <= kLast
    ensures LevelsBetween(head + tail, folder, system, k, kLast)
  {
    var fs := head + tail;
    forall i | 0 <= i < |fs| ensures NamedFor(fs[i].path, folder, system, k, kLast) {
      if i < |head| {
        assert fs[i] == head[i];
        NamedForWiden(head[i].path, folder, system, k, k, k, kLast);
      } else {
        assert fs[i] == tail[i - |head|];
        NamedForWiden(tail[i - |head|].path, folder, system, k + 1, kLast, k, kLast);
      }
    }
  }

  lemma {:induction false} PlannedPaths<A, B, X>(a: seq<A>, b: seq<B>, x: seq<X>, k: int, kLast: int, n: nat,
                                               folder: string, system: string)
    requires 0 < n <= |a| <= |b| && |a| <= |x|
    ensures LevelsBetween(Planned(a, b, x, k, kLast, n, folder, system), folder, system, k, kLast)
    ensures DistinctPaths(Planned(a, b, x, k, kLast, n, folder, system))
    decreases kLast + 1 - k
  {
    if k <= kLast {
      var head := PlannedLevel(a, b, x, n, k, folder, system);
      var tail := Planned(a, b, x, k + 1, kLast, n, folder, system);
      LevelPaths(a, b, x, n, k, folder, system);
      LevelDistinct(a, b, x, n, k, folder, system);
      PlannedPaths(a, b, x, k + 1, kLast, n, folder, system);
      LevelsApart(head, tail, folder, system, k, kLast);
      DistinctConcat(head, tail);
      LevelsConcat(head, tail, folder, system, k, kLast);
    }
  }

  /** The A files a level writes before mmwrite refuses a rank carry
      different names, all for that level. */
  lemma ShortLevelPaths<A, B, X>(a: seq<A>, b: seq<B>, x: seq<X>, n: nat, k: int, kLast: int,
                                 folder: string, system: string)
    requires 0 < n <= |a| <= |b| && |a| <= |x| && k <= kLast
    ensures DistinctPaths(ShortLevelOutcome(a, b, x, n, k, folder, system).written)
    ensures LevelsBetween(ShortLevelOutcome(a, b, x, n, k, folder, system).written, folder, system, k, kLast)
  {
    var fs := ShortLevelOutcome(a, b, x, n, k, folder, system).written;
    var block := PlannedBlock(a, b, x, n, k, Matrix, folder, system);
    assert fs == block[..|fs|];
    forall i | 0 <= i < |fs| ensures fs[i].path == OutputPath(folder, i, k, Matrix, system) {
      assert fs[i] == block[i];
    }
    forall i, j | 0 <= i < j < |fs| ensures fs[i].path != fs[j].path {
      if fs[i].path == fs[j].path {
        OutputPathInjective(folder, i, k, Matrix, j, k, Matrix, system);
      }
    }
    forall i | 0 <= i < |fs| ensures NamedFor(fs[i].path, folder, system, k, kLast) {
      var r: nat := i;
      assert k <= k <= kLast && fs[i].path == OutputPath(folder, r, k, Matrix, system);
    }
  }

  /** A run never writes two files under the same name, and each name it
      writes is that of a rank and level it was asked for; this holds too
      for the files already written when mmwrite stops it. */
  lemma RunPathsDistinct<A, B, X>(a: seq<A>, b: seq<B>, x: seq<X>, kFirst: int, kLast: int, n: nat,
                                  folder: string, system: string)
    requires 0 < n <= |a| <= |b| && |a| <= |x|
    ensures DistinctPaths(Run(a, b, x, kFirst, kLast, n, folder, system).written)
    ensures LevelsBetween(Run(a, b, x, kFirst, kLast, n, folder, system).written, folder, system, kFirst, kLast)
  {
    RunMatchesPlan(a, b, x, kFirst, kLast, n, folder, system);
    if kFirst > kLast || LevelFits(|a|, n, kFirst) {
      PlannedPaths(a, b, x, kFirst, kLast, n, folder, system);
    } else {
      ShortLevelPaths(a, b, x, n, kFirst, kLast, folder, system);
    }
  }

  lemma {:induction false} PlannedHas<A, B, X>(a: seq<A>, b: seq<B>, x: seq<X>, k: int, kLast: int, n: nat,
                                             folder: string, system: string, machine: nat, overlap: int, kind: Kind)
    requires 0 < n <= |a| <= |b| && |a| <= |x|
    requires machine < n && k <= overlap <= kLast
    ensures Artifact(OutputPath(folder, machine, overlap, kind, system), PlannedContent(a, b, x, n, overlap, kind, machine))
            in Planned(a, b, x, k, kLast, n, folder, system)
    decreases kLast + 1 - k
  {
    var level := PlannedLevel(a, b, x, n, k, folder, system);
    var rest := Planned(a, b, x, k + 1, kLast, n, folder, system);
    assert Planned(a, b, x, k, kLast, n, folder, system) == level + rest;
    if overlap == k {
      BlockInLevel(a, b, x, n, k, kind, folder, system, machine);
    } else {
      PlannedHas(a, b, x, k + 1, kLast, n, folder, system, machine, overlap, kind);
    }
  }

  /** Each rank's file of each kind is among the level's files. */
  lemma BlockInLevel<A, B, X>(a: seq<A>, b: seq<B>, x: seq<X>, n: nat, k: int, kind: Kind,
                              folder: string, system: string, r: nat)
    requires 0 < n <= |a| <= |b| && |a| <= |x| && r < n
    ensures Artifact(OutputPath(folder, r, k, kind, system), PlannedContent(a, b, x, n, k, kind, r))
            in PlannedLevel(a, b, x, n, k, folder, system)
  {
    var block := PlannedBlock(a, b, x, n, k, kind, folder, system);
    assert block[r] in block;
  }

  /** A Jacobi agent started as machine `machine` with redundancy `overlap`
      in the range the script was run for finds each of its four files, and
      each holds its planned content, provided the script's first level
      gives every rank a row (otherwise it stopped before writing them). */
  lemma AgentFindsItsFiles<A, B, X>(a: seq<A>, b: seq<B>, x: seq<X>, kFirst: int, kLast: int, n: nat,
                                    folder: string, system: string, machine: nat, overlap: int, kind: Kind)
    requires 0 < n <= |a| <= |b| && |a| <= |x| && LevelFits(|a|, n, kFirst)
    requires machine < n && kFirst <= overlap <= kLast
    ensures Artifact(folder + "/" + LoadedName(machine, overlap, kind, system), PlannedContent(a, b, x, n, overlap, kind, machine))
            in Run(a, b, x, kFirst, kLast, n, folder, system).written
  {
    RunMatchesPlan(a, b, x, kFirst, kLast, n, folder, system);
    PlannedHas(a, b, x, kFirst, kLast, n, folder, system, machine, overlap, kind);
    LoadedNameMatches(machine, overlap, kind, system);
    assert folder + "/" + LoadedName(machine, overlap, kind, system) == OutputPath(folder, machine, overlap, kind, system);
  }

  /** The synchronous Jacobi agent always loads level 0; when the script was
      run for a range containing 0, the index file it loads lists exactly
      its baseline rows. */
  lemma SyncAgentLoadsBaseline<A, B, X>(a: seq<A>, b: seq<B>, x: seq<X>, kFirst: int, kLast: int, n: nat,
                                        folder: string, system: string, machine: nat)
    requires 0 < n <= |a| <= |b| && |a| <= |x| && LevelFits(|a|, n, kFirst)
    requires machine < n && kFirst <= 0 <= kLast
    ensures var c := RowCounts(|a|, n);
            Artifact(folder + "/" + LoadedName(machine, 0, Indices, system), RowIndices(Range(Start(c, machine), Start(c, machine) + c[machine])))
            in Run(a, b, x, kFirst, kLast, n, folder, system).written
  {
    AgentFindsItsFiles(a, b, x, kFirst, kLast, n, folder, system, machine, 0, Indices);
    BaselineWindow(|a|, n, machine);
  }
}
