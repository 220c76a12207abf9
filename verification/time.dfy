/** Timestamp attribution (helpers/time.py; calculator.py:13-35 is a verbatim copy of time.py:9-31). */
module Time {
  import opened Wrappers
  import opened Edges
  import opened Helpers

  /** Pairs up `a` and `b` element by element, stopping at the shorter one (Python's `zip`). */
  function Zip<A, B>(a: seq<A>, b: seq<B>): (r: seq<(A, B)>)
    ensures |r| == if |a| < |b| then |a| else |b|
    ensures forall k :: 0 <= k < |r| ==> r[k] == (a[k], b[k])
  {
    seq(if |a| < |b| then |a| else |b|, k requires 0 <= k < |a| && k < |b| => (a[k], b[k]))
  }

  /**
   * The k-th first-occurrence index `j` of the reversed list points, in `s`
   * itself, at position `|s| - 1 - j`: the last occurrence of the k-th element
   * of `s` in order of last appearance.
   */
  lemma ReversedFirstOccurrence<T>(s: seq<T>)
    ensures |FirstOccurrences(Reverse(s))| == |RemoveDuplicates(Reverse(s))|
    ensures forall k :: 0 <= k < |FirstOccurrences(Reverse(s))| ==>
      var j := FirstOccurrences(Reverse(s))[k];
      j < |s| && s[|s| - 1 - j] == RemoveDuplicates(Reverse(s))[k] &&
      forall l :: |s| - 1 - j < l < |s| ==> s[l] != s[|s| - 1 - j]
  {
    var rev := Reverse(s);
    var idx := FirstOccurrences(rev);
    PickFirstOccurrences(rev);
    forall k | 0 <= k < |idx|
      ensures idx[k] < |s| && s[|s| - 1 - idx[k]] == RemoveDuplicates(rev)[k]
      ensures forall l :: |s| - 1 - idx[k] < l < |s| ==> s[l] != s[|s| - 1 - idx[k]]
    {
      var j := idx[k];
      assert Pick(rev, idx)[k] == rev[j];
      NewInReverse(s, rev, j);
    }
  }

  /** A value new at position `j` of the reversed list does not occur after position `|s| - 1 - j` of `s`. */
  lemma NewInReverse<T>(s: seq<T>, rev: seq<T>, j: nat)
    requires rev == Reverse(s) && j < |s| && NewAt(rev, j)
    ensures rev[j] == s[|s| - 1 - j]
    ensures forall l :: |s| - 1 - j < l < |s| ==> s[l] != s[|s| - 1 - j]
  {
    forall l | |s| - 1 - j < l < |s| ensures s[l] != s[|s| - 1 - j] {
      assert rev[|s| - 1 - l] == s[l];
    }
  }

  /**
   * `get_start_and_end_time_of_edges`: one window per distinct edge of the raw
   * matched-edge list `nearest` (one edge per coordinate). The second component
   * is the timestamp of the edge's first occurrence. The first component is read
   * at the k-th first-occurrence index `j` of the REVERSED edge list, applied to
   * the unreversed coordinates: `j` marks, in `nearest`, position
   * `|nearest| - 1 - j`, the last occurrence of the k-th edge in order of last
   * appearance, but the timestamp taken is the one at `j` itself.
   */
  function StartAndEndTimes(coordinates: seq<Coordinate>, nearest: seq<EdgeKey>): (r: seq<Window>)
    requires |nearest| <= |coordinates|
    ensures |r| == |RemoveDuplicates(nearest)|
  {
    var timestamps := Timestamps(coordinates);
    var first := FirstOccurrences(nearest);
    var last := FirstOccurrences(Reverse(nearest));
    PickFirstOccurrences(nearest);
    PickFirstOccurrences(Reverse(nearest));
    DistinctCountOfReverse(nearest);
    Zip(Pick(timestamps, last), Pick(timestamps, first))
  }

  /** The timestamp column of the trace. */
  function Timestamps(coordinates: seq<Coordinate>): (r: seq<Timestamp>)
    ensures |r| == |coordinates| && forall i :: 0 <= i < |r| ==> r[i] == coordinates[i].timeStamp
  {
    seq(|coordinates|, i requires 0 <= i < |coordinates| => coordinates[i].timeStamp)
  }

  /** The second component of window k is the timestamp at the first occurrence of the k-th distinct edge. */
  lemma StartAndEndTimesFirstSeen(coordinates: seq<Coordinate>, nearest: seq<EdgeKey>)
    requires |nearest| <= |coordinates|
    ensures var r := StartAndEndTimes(coordinates, nearest);
      |FirstOccurrences(nearest)| == |r| &&
      forall k :: 0 <= k < |r| ==>
        var i := FirstOccurrences(nearest)[k];
        i < |nearest| && nearest[i] == RemoveDuplicates(nearest)[k] && r[k].1 == coordinates[i].timeStamp
  {
    var r := StartAndEndTimes(coordinates, nearest);
    var first := FirstOccurrences(nearest);
    PickFirstOccurrences(nearest);
    forall k | 0 <= k < |r|
      ensures nearest[first[k]] == RemoveDuplicates(nearest)[k] && r[k].1 == coordinates[first[k]].timeStamp
    {
      assert Pick(nearest, first)[k] == nearest[first[k]];
    }
  }

  /**
   * The first component of window k is the timestamp at index `j`, the k-th
   * first-occurrence index of the reversed edge list; by ReversedFirstOccurrence
   * the edge that index stands for sits at `|nearest| - 1 - j`, its last occurrence.
   */
  lemma StartAndEndTimesReversedIndex(coordinates: seq<Coordinate>, nearest: seq<EdgeKey>)
    requires |nearest| <= |coordinates|
    ensures var r := StartAndEndTimes(coordinates, nearest);
      |FirstOccurrences(Reverse(nearest))| == |r| &&
      forall k :: 0 <= k < |r| ==>
        var j := FirstOccurrences(Reverse(nearest))[k];
        j < |nearest| && r[k].0 == coordinates[j].timeStamp
  {
    var r := StartAndEndTimes(coordinates, nearest);
    var last := FirstOccurrences(Reverse(nearest));
    PickFirstOccurrences(nearest);
    PickFirstOccurrences(Reverse(nearest));
    DistinctCountOfReverse(nearest);
    forall k | 0 <= k < |r| ensures r[k].0 == coordinates[last[k]].timeStamp {
      assert r[k].0 == Pick(Timestamps(coordinates), last)[k];
    }
  }

  /** The example `R = [A, A, B]` with timestamps `T0, T1, T2` gives `[(T0, T0), (T1, T2)]`. */
  lemma StartAndEndTimesExample(t0: Timestamp, t1: Timestamp, t2: Timestamp)
    ensures
      var a, b := EdgeKey(1, 2, 0), EdgeKey(2, 3, 0);
      var coordinates := [Coordinate(0.0, 0.0, t0), Coordinate(0.0, 0.0, t1), Coordinate(0.0, 0.0, t2)];
      StartAndEndTimes(coordinates, [a, a, b]) == [(t0, t0), (t1, t2)]
  {
    var a, b := EdgeKey(1, 2, 0), EdgeKey(2, 3, 0);
    var coordinates := [Coordinate(0.0, 0.0, t0), Coordinate(0.0, 0.0, t1), Coordinate(0.0, 0.0, t2)];
    FirstOccurrencesOfPairThenOther(a, b);
    assert Reverse([a, a, b]) == [b, a, a];
    FirstOccurrencesOfOtherThenPair(a, b);
    var timestamps := Timestamps(coordinates);
    assert timestamps == [t0, t1, t2];
    assert Pick(timestamps, [0, 1]) == [t0, t1];
    assert Pick(timestamps, [0, 2]) == [t0, t2];
  }

  /** In `[x, x, y]` the elements first appear at indexes 0 and 2. */
  lemma FirstOccurrencesOfPairThenOther<T>(x: T, y: T)
    requires x != y
    ensures FirstOccurrences([x, x, y]) == [0, 2]
  {
    assert [x][..0] == [] && [x, x][..1] == [x] && [x, x, y][..2] == [x, x];
    assert FirstOccurrences([x]) == [0];
    assert FirstOccurrences([x, x]) == [0];
  }

  /** In `[y, x, x]` the elements first appear at indexes 0 and 1. */
  lemma FirstOccurrencesOfOtherThenPair<T>(x: T, y: T)
    requires x != y
    ensures FirstOccurrences([y, x, x]) == [0, 1]
  {
    assert [y][..0] == [] && [y, x][..1] == [y] && [y, x, x][..2] == [y, x];
    assert FirstOccurrences([y]) == [0];
    assert FirstOccurrences([y, x]) == [0, 1];
  }

  /** Python's `list.index`: the position of the first occurrence of `x`. */
  function IndexOf<T(==)>(s: seq<T>, x: T): (i: nat)
    requires x in s
    ensures i < |s| && s[i] == x && NewAt(s, i)
  {
    if s[0] == x then 0 else 1 + IndexOf(s[1..], x)
  }

  /**
   * `match_timestamps`: row `i` of the ordered route-edge table receives the
   * window of its `(u, v, key)` triple's first position in `nearest`; rows whose
   * triple is absent (the caught ValueError) get no entry. A position beyond
   * the window list raises IndexError, which is not caught.
   */
  method MatchTimestamps(nearest: seq<EdgeKey>, routeEdges: seq<EdgeRow>, windows: seq<Window>)
    returns (r: Result<map<int, Window>>)
    ensures r.Success? <==>
      forall i :: 0 <= i < |routeEdges| && routeEdges[i].Key() in nearest ==>
        IndexOf(nearest, routeEdges[i].Key()) < |windows|
    ensures r.Failure? ==> r.error == IndexError
    ensures |nearest| <= |windows| ==> r.Success?
    ensures r.Success? ==>
      forall i :: i in r.value <==> 0 <= i < |routeEdges| && routeEdges[i].Key() in nearest
    ensures r.Success? ==>
      forall i :: i in r.value ==>
        0 <= i < |routeEdges| && r.value[i] == windows[IndexOf(nearest, routeEdges[i].Key())]
  {
    var timestamps: map<int, Window> := map[];
    for i := 0 to |routeEdges|
      invariant forall j :: j in timestamps <==> 0 <= j < i && routeEdges[j].Key() in nearest
      invariant forall j :: 0 <= j < i && routeEdges[j].Key() in nearest ==>
                            IndexOf(nearest, routeEdges[j].Key()) < |windows|
      invariant forall j :: j in timestamps ==>
        0 <= j < i && routeEdges[j].Key() in nearest && timestamps[j] == windows[IndexOf(nearest, routeEdges[j].Key())]
    {
      var edge := routeEdges[i].Key();
      if edge in nearest {
        var index := IndexOf(nearest, edge);
        if index >= |windows| {
          return Failure(IndexError);
        }
        timestamps := timestamps[i := windows[index]];
      }
    }
    return Success(timestamps);
  }

  /** Indexes `a..b` form a maximal run of indexes in `[0, h)` that `m` lacks. */
  predicate IsMissingRun(m: map<int, Window>, h: int, a: int, b: int) {
    && 0 <= a <= b < h
    && (forall i :: a <= i <= b ==> i !in m)
    && (a == 0 || a - 1 in m)
    && (b == h - 1 || b + 1 in m)
  }

  /** A non-empty list of consecutive integers. */
  predicate IsRun(run: seq<int>) {
    |run| > 0 && forall j :: 0 <= j < |run| ==> run[j] == run[0] + j
  }

  function Last(run: seq<int>): int
    requires |run| > 0
  {
    run[|run| - 1]
  }

  /**
   * `runs` partitions the indexes of `[0, h)` that `m` lacks into maximal runs
   * of consecutive integers, in ascending order: every run is missing and
   * maximal, and every index of `[0, h)` outside the runs is present.
   */
  predicate MissingRuns(m: map<int, Window>, h: int, runs: seq<seq<int>>) {
    && (forall k :: 0 <= k < |runs| ==> IsRun(runs[k]) && IsMissingRun(m, h, runs[k][0], Last(runs[k])))
    && (forall k, l :: 0 <= k < l < |runs| ==> Last(runs[k]) + 1 < runs[l][0])
    && Outside(m, h, runs)
  }

  /** Every index of `[0, i)` that lies in no run of `runs` (ascending, separated) is a key of `m`. */
  predicate Outside(m: map<int, Window>, i: int, runs: seq<seq<int>>)
    requires forall k :: 0 <= k < |runs| ==> |runs[k]| > 0
  {
    && (|runs| == 0 ==> forall j :: 0 <= j < i ==> j in m)
    && (|runs| > 0 ==> forall j :: 0 <= j < runs[0][0] ==> j in m)
    && (forall k, j :: 0 <= k < |runs| - 1 && Last(runs[k]) < j < runs[k + 1][0] ==> j in m)
    && (|runs| > 0 ==> forall j :: Last(runs[|runs| - 1]) < j < i ==> j in m)
  }

  /** A run the scan has recorded before reaching index `i`. */
  predicate ScannedRun(m: map<int, Window>, i: int, run: seq<int>) {
    && IsRun(run) && 0 <= run[0] && Last(run) < i
    && (forall x :: run[0] <= x <= Last(run) ==> x !in m)
    && (run[0] == 0 || run[0] - 1 in m)
  }

  /** Each run ends more than one index before the next one starts. */
  predicate Separated(runs: seq<seq<int>>)
    requires forall k :: 0 <= k < |runs| ==> |runs[k]| > 0
  {
    forall k, l :: 0 <= k < l < |runs| ==> Last(runs[k]) + 1 < runs[l][0]
  }

  /** What the scan of time.py:38-48 knows after looking at the indexes below `i`. */
  predicate ScanInvariant(m: map<int, Window>, i: int, runs: seq<seq<int>>) {
    && (forall k :: 0 <= k < |runs| ==> ScannedRun(m, i, runs[k]))
    && Separated(runs)
    && Outside(m, i, runs)
  }

  lemma ScanPresent(m: map<int, Window>, i: int, runs: seq<seq<int>>)
    requires 0 <= i && ScanInvariant(m, i, runs) && i in m
    ensures ScanInvariant(m, i + 1, runs)
  {
    assert forall k :: 0 <= k < |runs| ==> ScannedRun(m, i + 1, runs[k]);
  }

  lemma ScanStartRun(m: map<int, Window>, i: int, runs: seq<seq<int>>)
    requires 0 <= i && ScanInvariant(m, i, runs) && i !in m
    requires |runs| == 0 || Last(runs[|runs| - 1]) != i - 1
    ensures ScanInvariant(m, i + 1, runs + [[i]])
  {
    if 0 < i {
      PreviousPresent(m, i, runs);
    }
    StartRunScanned(m, i, runs);
    StartRunSeparated(i, runs);
    StartRunOutside(m, i, runs);
  }

  /** The runs after index `i` has been looked at. */
  function NextRuns(m: map<int, Window>, i: int, runs: seq<seq<int>>): seq<seq<int>> {
    if i in m then runs
    else if |runs| > 0 && |runs[|runs| - 1]| > 0 && Last(runs[|runs| - 1]) == i - 1 then
      runs[|runs| - 1 := runs[|runs| - 1] + [i]]
    else runs + [[i]]
  }

  /** The runs the scan has built after looking at the indexes below `i`. */
  function ScanRuns(m: map<int, Window>, i: nat): seq<seq<int>> {
    if i == 0 then [] else NextRuns(m, i - 1, ScanRuns(m, i - 1))
  }

  /** The runs built so far satisfy the scan invariant. */
  lemma {:induction false} ScanRunsInvariant(m: map<int, Window>, i: nat) returns (runs: seq<seq<int>>)
    ensures runs == ScanRuns(m, i) && ScanInvariant(m, i, runs)
  {
    if i == 0 {
      runs := [];
    } else {
      var prev := ScanRunsInvariant(m, i - 1);
      runs := ScanStep(m, i - 1, prev, i);
    }
  }

  /** The last run the scan has built is not empty. */
  lemma LastRunNonEmpty(m: map<int, Window>, i: nat, runs: seq<seq<int>>)
    requires runs == ScanRuns(m, i) && |runs| > 0
    ensures |runs[|runs| - 1]| > 0
  {
    var r := ScanRunsInvariant(m, i);
    assert r == runs;
    assert ScannedRun(m, i, runs[|runs| - 1]);
  }

  /** Once every index below `h` has been looked at, the runs are the missing runs of `[0, h)`. */
  lemma ScanRunsMissing(m: map<int, Window>, h: nat, runs: seq<seq<int>>)
    requires runs == ScanRuns(m, h)
    ensures MissingRuns(m, h, runs)
  {
    var r := ScanRunsInvariant(m, h);
    assert r == runs;
    ScanDone(m, h, runs);
  }

  /** One step of the scan keeps the scan invariant. */
  lemma ScanStep(m: map<int, Window>, i: nat, runs: seq<seq<int>>, after: nat) returns (next: seq<seq<int>>)
    requires runs == ScanRuns(m, i) && ScanInvariant(m, i, runs) && after == i + 1
    ensures next == ScanRuns(m, after) && ScanInvariant(m, after, next)
  {
    next := NextRuns(m, i, runs);
    if i in m {
      ScanPresent(m, i, runs);
    } else if |runs| > 0 && |runs[|runs| - 1]| > 0 && Last(runs[|runs| - 1]) == i - 1 {
      ScanExtendRun(m, i, runs);
    } else {
      if |runs| > 0 {
        assert ScannedRun(m, i, runs[|runs| - 1]);
      }
      ScanStartRun(m, i, runs);
    }
  }

  /** Before a new run starts at `i`, index `i - 1` is present. */
  lemma PreviousPresent(m: map<int, Window>, i: int, runs: seq<seq<int>>)
    requires 0 < i && ScanInvariant(m, i, runs)
    requires |runs| == 0 || Last(runs[|runs| - 1]) != i - 1
    ensures i - 1 in m
  {
    if |runs| > 0 {
      assert ScannedRun(m, i, runs[|runs| - 1]);
    }
  }

  lemma StartRunScanned(m: map<int, Window>, i: int, runs: seq<seq<int>>)
    requires 0 <= i && i !in m && (i == 0 || i - 1 in m)
    requires forall k :: 0 <= k < |runs| ==> ScannedRun(m, i, runs[k])
    ensures forall k :: 0 <= k < |runs + [[i]]| ==> ScannedRun(m, i + 1, (runs + [[i]])[k])
  {
    forall k | 0 <= k < |runs + [[i]]| ensures ScannedRun(m, i + 1, (runs + [[i]])[k]) {
      if k < |runs| {
        assert (runs + [[i]])[k] == runs[k];
        assert ScannedRun(m, i, runs[k]);
      } else {
        assert (runs + [[i]])[k] == [i];
      }
    }
  }

  lemma StartRunSeparated(i: int, runs: seq<seq<int>>)
    requires forall k :: 0 <= k < |runs| ==> |runs[k]| > 0 && IsRun(runs[k]) && Last(runs[k]) < i
    requires Separated(runs)
    requires |runs| == 0 || Last(runs[|runs| - 1]) != i - 1
    ensures Separated(runs + [[i]])
  {
    var next := runs + [[i]];
    forall k, l | 0 <= k < l < |next| ensures Last(next[k]) + 1 < next[l][0] {
      assert next[k] == runs[k];
      if l < |runs| {
        assert next[l] == runs[l];
      } else {
        assert next[l] == [i];
        var n := |runs| - 1;
        if k < n {
          assert Last(runs[k]) + 1 < runs[n][0] <= Last(runs[n]);
        }
      }
    }
  }

  lemma StartRunOutside(m: map<int, Window>, i: int, runs: seq<seq<int>>)
    requires forall k :: 0 <= k < |runs| ==> |runs[k]| > 0 && IsRun(runs[k])
    requires Outside(m, i, runs)
    ensures Outside(m, i + 1, runs + [[i]])
  {
    var next := runs + [[i]];
    assert forall k :: 0 <= k < |runs| ==> next[k] == runs[k];
    assert next[|runs|] == [i];
  }

  lemma ScanExtendRun(m: map<int, Window>, i: int, runs: seq<seq<int>>)
    requires 0 <= i && ScanInvariant(m, i, runs) && i !in m
    requires |runs| > 0 && Last(runs[|runs| - 1]) == i - 1
    ensures ScanInvariant(m, i + 1, runs[|runs| - 1 := runs[|runs| - 1] + [i]])
  {
    ExtendRunScanned(m, i, runs, runs[|runs| - 1 := runs[|runs| - 1] + [i]]);
    ExtendRunSeparated(i, runs);
    ExtendRunOutside(m, i, runs);
  }

  lemma ExtendRunScanned(m: map<int, Window>, i: int, runs: seq<seq<int>>, next: seq<seq<int>>)
    requires 0 <= i && i !in m
    requires forall k :: 0 <= k < |runs| ==> |runs[k]| > 0 && ScannedRun(m, i, runs[k])
    requires |runs| > 0 && Last(runs[|runs| - 1]) == i - 1
    requires next == runs[|runs| - 1 := runs[|runs| - 1] + [i]]
    ensures forall k :: 0 <= k < |next| ==> ScannedRun(m, i + 1, next[k])
  {
    var n := |runs| - 1;
    forall k | 0 <= k < |runs| ensures ScannedRun(m, i + 1, next[k]) {
      assert ScannedRun(m, i, runs[k]);
      if k == n {
        var r := runs[n] + [i];
        assert r[0] == runs[n][0] && Last(r) == i;
        forall j | 0 <= j < |r| ensures r[j] == r[0] + j {
          if j < |runs[n]| { assert r[j] == runs[n][j]; }
        }
      }
    }
  }

  lemma ExtendRunSeparated(i: int, runs: seq<seq<int>>)
    requires forall k :: 0 <= k < |runs| ==> |runs[k]| > 0
    requires Separated(runs)
    requires |runs| > 0 && Last(runs[|runs| - 1]) == i - 1
    ensures Separated(runs[|runs| - 1 := runs[|runs| - 1] + [i]])
  {
    var n := |runs| - 1;
    var next := runs[n := runs[n] + [i]];
    forall k, l | 0 <= k < l < |next| ensures Last(next[k]) + 1 < next[l][0] {
      assert next[k] == runs[k];
      assert next[l][0] == runs[l][0];
    }
  }

  lemma ExtendRunOutside(m: map<int, Window>, i: int, runs: seq<seq<int>>)
    requires forall k :: 0 <= k < |runs| ==> |runs[k]| > 0
    requires Outside(m, i, runs)
    requires |runs| > 0 && Last(runs[|runs| - 1]) == i - 1
    ensures Outside(m, i + 1, runs[|runs| - 1 := runs[|runs| - 1] + [i]])
  {
    var n := |runs| - 1;
    var next := runs[n := runs[n] + [i]];
    assert forall k :: 0 <= k < n ==> next[k] == runs[k];
    assert next[n][0] == runs[n][0] && Last(next[n]) == i;
  }

  lemma ScanDone(m: map<int, Window>, h: int, runs: seq<seq<int>>)
    requires 0 <= h && ScanInvariant(m, h, runs)
    ensures MissingRuns(m, h, runs)
  {
    forall k | 0 <= k < |runs| ensures IsMissingRun(m, h, runs[k][0], Last(runs[k])) {
      if k < |runs| - 1 {
        assert Last(runs[k]) + 1 < runs[k + 1][0];
      }
    }
  }

  /** The scan of time.py:38-48 that builds `missing_ranges`. */
  method MissingRanges(m: map<int, Window>, h: int) returns (runs: seq<seq<int>>)
    ensures MissingRuns(m, h, runs)
  {
    runs := [];
    var i := 0;
    while i < h
      invariant 0 <= i && (0 <= h ==> i <= h) && (h < 0 ==> runs == [])
      invariant runs == ScanRuns(m, i)
    {
      if i in m {
      } else if |runs| == 0 {
        runs := runs + [[i]];
      } else {
        LastRunNonEmpty(m, i, runs);
        if Last(runs[|runs| - 1]) == i - 1 {
          runs := runs[|runs| - 1 := runs[|runs| - 1] + [i]];
        } else {
          runs := runs + [[i]];
        }
      }
      i := i + 1;
    }
    if 0 <= h {
      ScanRunsMissing(m, h, runs);
    }
  }

  /** No index of `[0, h)` is missing (vacuously so when `h <= 0`). */
  predicate AllPresent(m: map<int, Window>, h: int) {
    forall i :: 0 <= i < h ==> i in m
  }

  /** Index 0 is missing, and the missing indexes of `[0, h)` form one run that starts at 0. */
  predicate MissingOnlyPrefix(m: map<int, Window>, h: int) {
    0 < h && 0 !in m && forall i, j :: 0 <= i <= j < h && i in m ==> j in m
  }

  /** The last index `h - 1` is missing and `h` itself is not a key either. */
  predicate OpenEnd(m: map<int, Window>, h: int) {
    0 < h && h - 1 !in m && h !in m
  }

  lemma RunsEmpty(m: map<int, Window>, h: int, runs: seq<seq<int>>)
    requires MissingRuns(m, h, runs)
    ensures |runs| == 0 <==> AllPresent(m, h)
  {
    if |runs| > 0 {
      assert runs[0][0] !in m;
    }
  }

  /** Only the first run can start at index 0. */
  lemma RunsStartLater(m: map<int, Window>, h: int, runs: seq<seq<int>>)
    requires MissingRuns(m, h, runs)
    ensures forall k :: 0 < k < |runs| ==> 0 < runs[k][0]
  {
    forall k | 0 < k < |runs| ensures 0 < runs[k][0] {
      assert Last(runs[0]) + 1 < runs[k][0];
    }
  }

  /** Dropping the last run: every index before its start that no earlier run holds is present. */
  lemma OutsideOfPrefix(m: map<int, Window>, i: int, runs: seq<seq<int>>)
    requires forall k :: 0 <= k < |runs| ==> |runs[k]| > 0
    requires |runs| > 0 && Outside(m, i, runs)
    ensures Outside(m, runs[|runs| - 1][0], runs[..|runs| - 1])
  {
    var n := |runs| - 1;
    var p := runs[..n];
    assert forall k :: 0 <= k < n ==> p[k] == runs[k];
    if n > 0 {
      assert forall j :: Last(p[n - 1]) < j < runs[n][0] ==> j in m;
    }
  }

  /** A missing index of `[0, h)` lies in one of the runs. */
  lemma {:induction false} Locate(m: map<int, Window>, i: int, runs: seq<seq<int>>, j: int) returns (k: nat)
    requires forall k :: 0 <= k < |runs| ==> |runs[k]| > 0
    requires Outside(m, i, runs)
    requires 0 <= j < i && j !in m
    ensures k < |runs| && runs[k][0] <= j <= Last(runs[k])
    decreases |runs|
  {
    var n := |runs| - 1;
    if runs[n][0] <= j {
      k := n;
    } else {
      OutsideOfPrefix(m, i, runs);
      k := Locate(m, runs[n][0], runs[..n], j);
      assert runs[..n][k] == runs[k];
    }
  }

  /** A maximal missing run `a..b` is one of the recorded runs. */
  lemma RunOf(m: map<int, Window>, h: int, runs: seq<seq<int>>, a: int, b: int) returns (k: nat)
    requires MissingRuns(m, h, runs) && IsMissingRun(m, h, a, b)
    ensures k < |runs| && runs[k][0] == a && Last(runs[k]) == b
  {
    k := Locate(m, h, runs, a);
    var run := runs[k];
    assert IsRun(run) && IsMissingRun(m, h, run[0], Last(run));
    RunCells(m, h, runs);
    assert InRun(run, a - 1) == (run[0] < a);
    assert InRun(run, b + 1) == (b < Last(run));
  }

  /** Every cell of a run is missing, and every run but the last is followed by a present index. */
  lemma RunCells(m: map<int, Window>, h: int, runs: seq<seq<int>>)
    requires MissingRuns(m, h, runs)
    ensures forall k, x :: 0 <= k < |runs| && InRun(runs[k], x) ==> x !in m
    ensures forall k :: 0 <= k < |runs| - 1 ==> Last(runs[k]) + 1 < h && Last(runs[k]) + 1 in m
  {
    forall k, x | 0 <= k < |runs| && InRun(runs[k], x) ensures x !in m {
      assert runs[k][x - runs[k][0]] == x;
    }
  }

  /** `x` is one of the indexes of the non-empty run `run`. */
  predicate InRun(run: seq<int>, x: int) {
    |run| > 0 && run[0] <= x <= Last(run)
  }

  lemma RunsPrefix(m: map<int, Window>, h: int, runs: seq<seq<int>>)
    requires MissingRuns(m, h, runs)
    ensures MissingOnlyPrefix(m, h) ==> |runs| == 1 && runs[0][0] == 0
    ensures |runs| == 1 && runs[0][0] == 0 ==> MissingOnlyPrefix(m, h)
  {
    RunsStartLater(m, h, runs);
    RunCells(m, h, runs);
    if |runs| > 0 {
      assert InRun(runs[0], runs[0][0]);
    }
    if |runs| > 1 {
      assert InRun(runs[1], runs[1][0]);
      assert 0 <= runs[0][0] <= Last(runs[0]) && Last(runs[0]) + 1 in m;
      assert Last(runs[0]) + 1 <= runs[1][0] < h && runs[1][0] !in m;
    }
    if MissingOnlyPrefix(m, h) {
      var k := Locate(m, h, runs, 0);
      assert k == 0;
    }
    if |runs| == 1 && runs[0][0] == 0 {
      forall i, j | 0 <= i <= j < h && i in m ensures j in m {
        if j !in m {
          var k := Locate(m, h, runs, j);
        }
      }
    }
  }

  lemma RunsOpenEnd(m: map<int, Window>, h: int, runs: seq<seq<int>>)
    requires MissingRuns(m, h, runs)
    ensures OpenEnd(m, h) <==> |runs| > 0 && Last(runs[|runs| - 1]) == h - 1 && h !in m
  {
    RunCells(m, h, runs);
    if OpenEnd(m, h) {
      var k := Locate(m, h, runs, h - 1);
    }
  }

  /**
   * The window the run-based filler gives the missing index `i` of the run `a..b`.
   * A run that starts at 0 copies the window after it. Any other run copies the window
   * before it into its first half and the window after it into its second half; the
   * middle index of an odd-length run starts where the window before it ends and ends
   * where the window after it starts.
   */
  function RunFillValue(m: map<int, Window>, a: int, b: int, i: int): Window
    requires (a == 0 || a - 1 in m) && b + 1 in m
  {
    if a == 0 then m[b + 1]
    // `i` is among the first, or the last, floor((b - a + 1) / 2) indexes of the run
    else if 2 * (i - a + 1) <= b - a + 1 then m[a - 1]
    else if 2 * (b - i + 1) <= b - a + 1 then m[b + 1]
    else (m[a - 1].1, m[b + 1].0)
  }

  /** Every index of the run `run` holds, in `cur`, the window the filler gives it. */
  predicate Filled(m: map<int, Window>, cur: map<int, Window>, run: seq<int>)
    requires |run| > 0
  {
    && (run[0] == 0 || run[0] - 1 in m) && Last(run) + 1 in m
    && forall x :: run[0] <= x <= Last(run) ==> x in cur && cur[x] == RunFillValue(m, run[0], Last(run), x)
  }

  /** Assumptions shared by the steps of the inward fill of the run `a..b`. */
  predicate InwardReady(m: map<int, Window>, cur: map<int, Window>, a: int, b: int) {
    && 0 < a && a <= b && a - 1 in m
    && (forall x :: x in m ==> x in cur && cur[x] == m[x])
    && (b + 1 in cur <==> b + 1 in m)
  }

  /**
   * The map after `k` passes of the inward fill of the run `a..b`: each pass copies the
   * window before the run into the next cell from the left and the window after the
   * run into the next cell from the right.
   */
  function InwardFill(m: map<int, Window>, cur: map<int, Window>, a: int, b: int, k: nat): map<int, Window>
    requires a - 1 in m && (k > 0 ==> b + 1 in m)
    decreases k
  {
    if k == 0 then cur
    else InwardFill(m, cur, a, b, k - 1)[a + k - 1 := m[a - 1]][b - k + 1 := m[b + 1]]
  }

  /**
   * After `k` passes the first `k` and the last `k` cells of the run hold the window
   * before and after it, the cells between are still missing, and every other key
   * keeps its window.
   */
  lemma {:induction false} InwardCells(m: map<int, Window>, cur: map<int, Window>, a: int, b: int, k: nat)
    requires InwardReady(m, cur, a, b) && 2 * k <= b - a + 1 && (k > 0 ==> b + 1 in m)
    ensures forall x :: x in InwardFill(m, cur, a, b, k) <==> x in cur || a <= x < a + k || b - k < x <= b
    ensures forall x :: a <= x < a + k ==> InwardFill(m, cur, a, b, k)[x] == m[a - 1]
    ensures forall x :: b - k < x <= b ==> InwardFill(m, cur, a, b, k)[x] == m[b + 1]
    ensures forall x :: x in cur && !(a <= x <= b) ==> InwardFill(m, cur, a, b, k)[x] == cur[x]
  {
    if k > 0 {
      InwardCells(m, cur, a, b, k - 1);
      InwardCellsStep(m, cur, a, b, k, InwardFill(m, cur, a, b, k - 1), InwardFill(m, cur, a, b, k));
    }
  }

  /** Pass `k` writes the two cells `a + k - 1` and `b - k + 1` and keeps every other cell. */
  lemma InwardCellsStep(m: map<int, Window>, cur: map<int, Window>, a: int, b: int, k: nat,
                        prev: map<int, Window>, here: map<int, Window>)
    requires 0 < k && 2 * k <= b - a + 1 && a - 1 in m && b + 1 in m
    requires forall x :: x in prev <==> x in cur || a <= x < a + k - 1 || b - k + 1 < x <= b
    requires forall x :: a <= x < a + k - 1 ==> prev[x] == m[a - 1]
    requires forall x :: b - k + 1 < x <= b ==> prev[x] == m[b + 1]
    requires forall x :: x in cur && !(a <= x <= b) ==> prev[x] == cur[x]
    requires here == prev[a + k - 1 := m[a - 1]][b - k + 1 := m[b + 1]]
    ensures forall x :: x in here <==> x in cur || a <= x < a + k || b - k < x <= b
    ensures forall x :: a <= x < a + k ==> here[x] == m[a - 1]
    ensures forall x :: b - k < x <= b ==> here[x] == m[b + 1]
    ensures forall x :: x in cur && !(a <= x <= b) ==> here[x] == cur[x]
  {
    forall x | a <= x < a + k ensures here[x] == m[a - 1] {
      if x < a + k - 1 { assert here[x] == prev[x]; }
    }
    forall x | b - k < x <= b ensures here[x] == m[b + 1] {
      if b - k + 1 < x { assert here[x] == prev[x]; }
    }
    forall x | x in cur && !(a <= x <= b) ensures here[x] == cur[x] {
      assert here[x] == prev[x];
    }
  }

  /** When the passes have met in the middle, every cell of the run holds the window the run rule gives it. */
  lemma InwardDone(m: map<int, Window>, cur: map<int, Window>, run: seq<int>, k: nat)
    requires |run| > 0 && InwardReady(m, cur, run[0], Last(run)) && Last(run) + 1 in m
    requires 2 * k == Last(run) - run[0] + 1
    ensures Filled(m, InwardFill(m, cur, run[0], Last(run), k), run)
    ensures forall x :: x in InwardFill(m, cur, run[0], Last(run), k) <==> x in cur || InRun(run, x)
    ensures forall x :: x in cur && !InRun(run, x) ==> InwardFill(m, cur, run[0], Last(run), k)[x] == cur[x]
  {
    InwardCells(m, cur, run[0], Last(run), k);
  }

  /** An odd run: after the passes, the middle cell `c` joins the window before the run and the window after it. */
  lemma InwardMiddle(m: map<int, Window>, cur: map<int, Window>, run: seq<int>, k: nat, c: int)
    requires |run| > 0 && InwardReady(m, cur, run[0], Last(run)) && Last(run) + 1 in m
    requires 2 * k + 1 == Last(run) - run[0] + 1 && c == run[0] + k
    ensures Filled(m, InwardFill(m, cur, run[0], Last(run), k)[c := (m[run[0] - 1].1, m[Last(run) + 1].0)], run)
    ensures forall x ::
      (x in InwardFill(m, cur, run[0], Last(run), k)[c := (m[run[0] - 1].1, m[Last(run) + 1].0)]
       <==> x in cur || InRun(run, x))
    ensures forall x ::
      (x in cur && !InRun(run, x) ==>
       InwardFill(m, cur, run[0], Last(run), k)[c := (m[run[0] - 1].1, m[Last(run) + 1].0)][x] == cur[x])
  {
    InwardCells(m, cur, run[0], Last(run), k);
  }

  /** The `n` consecutive integers from `lo`. */
  function Consecutive(lo: int, n: nat): (r: seq<int>)
    ensures |r| == n && forall j :: 0 <= j < n ==> r[j] == lo + j
  {
    seq(n, j => lo + j)
  }

  /** A run is the consecutive integers from its first element. */
  lemma RunIsConsecutive(run: seq<int>)
    requires IsRun(run)
    ensures run == Consecutive(run[0], |run|)
  {
  }

  /** Dropping both ends of the consecutive integers from `lo` leaves those from `lo + 1`. */
  lemma ConsecutiveInner(rest: seq<int>, lo: int)
    requires |rest| > 1 && rest == Consecutive(lo, |rest|)
    ensures rest[0] == lo && rest[1..][|rest[1..]| - 1] == rest[|rest| - 1] == lo + |rest| - 1
    ensures rest[1..][..|rest[1..]| - 1] == Consecutive(lo + 1, |rest| - 2)
  {
  }

  /** Splitting `n` cells into `k` pairs and at most one left over. */
  lemma HalfOf(n: int, k: nat, r: nat)
    requires 2 * k + r == n && r <= 1
    ensures k == n / 2 && r == n % 2
  {
  }

  /**
   * One pass of the copying loop: with `i` the first and `j` the last missing cell, the
   * cell before `i` holds the window before the run, the cell after `j` holds one exactly
   * when the run has a window after it, and the two copies give the map after `k + 1` passes.
   */
  lemma InwardStep(m: map<int, Window>, cur: map<int, Window>, a: int, b: int, k: nat,
                   next: map<int, Window>, i: int, j: int)
    requires InwardReady(m, cur, a, b) && 2 * k + 2 <= b - a + 1 && (k > 0 ==> b + 1 in m)
    requires next == InwardFill(m, cur, a, b, k) && i == a + k && j == b - k
    ensures i - 1 in next
    ensures j + 1 in next[i := next[i - 1]] <==> b + 1 in m
    ensures b + 1 in m ==>
      next[i := next[i - 1]][j := next[i := next[i - 1]][j + 1]] == InwardFill(m, cur, a, b, k + 1)
  {
    InwardLeft(m, cur, a, b, k);
    InwardRight(m, cur, a, b, k);
  }

  /** After `k` passes, the cell before the next left cell holds the window before the run. */
  lemma InwardLeft(m: map<int, Window>, cur: map<int, Window>, a: int, b: int, k: nat)
    requires InwardReady(m, cur, a, b) && 2 * k <= b - a + 1 && (k > 0 ==> b + 1 in m)
    ensures a + k - 1 in InwardFill(m, cur, a, b, k) && InwardFill(m, cur, a, b, k)[a + k - 1] == m[a - 1]
  {
    if k > 0 {
      InwardCells(m, cur, a, b, k);
    }
  }

  /** After `k` passes, the cell after the next right cell holds the window after the run, if there is one. */
  lemma InwardRight(m: map<int, Window>, cur: map<int, Window>, a: int, b: int, k: nat)
    requires InwardReady(m, cur, a, b) && 2 * k <= b - a + 1 && (k > 0 ==> b + 1 in m)
    ensures b - k + 1 in InwardFill(m, cur, a, b, k) <==> b + 1 in m
    ensures b + 1 in m ==> InwardFill(m, cur, a, b, k)[b - k + 1] == m[b + 1]
  {
    if k > 0 {
      InwardCells(m, cur, a, b, k);
    }
  }

  /**
   * The copying loop for one run `a..b` that does not start at 0: it copies the window
   * before the run into its first cell and the window after it into its last cell, drops
   * both, and repeats while more than one cell is left. Fails with a key error when the
   * index after the run has no window. Returns the map and the cells still missing
   * (the middle cell of an odd run, or none).
   */
  method FillRunEnds(m: map<int, Window>, h: int, cur: map<int, Window>, run: seq<int>)
    returns (r: Result<(map<int, Window>, seq<int>)>)
    requires IsRun(run) && InwardReady(m, cur, run[0], Last(run))
    ensures r.Failure? <==> |run| > 1 && Last(run) + 1 !in m
    ensures r.Failure? ==> r.error == KeyError(Last(run) + 1)
    ensures r.Success? ==> r.value.1 == Consecutive(run[0] + |run| / 2, |run| % 2)
    ensures r.Success? ==> r.value.0 == InwardFill(m, cur, run[0], Last(run), |run| / 2)
  {
    ghost var a, b := run[0], Last(run);
    ghost var k: nat := 0;
    var rest := run;
    var next := cur;
    RunIsConsecutive(run);
    while |rest| > 1
      invariant 2 * k + |rest| == b - a + 1 && (k > 0 ==> b + 1 in m)
      invariant next == InwardFill(m, cur, a, b, k)
      invariant rest == Consecutive(a + k, |rest|)
      decreases |rest|
    {
      InwardStep(m, cur, a, b, k, next, rest[0], rest[|rest| - 1]);
      ConsecutiveInner(rest, a + k);
      next := next[rest[0] := next[rest[0] - 1]];
      rest := rest[1..];
      var after := rest[|rest| - 1] + 1;
      if after !in next {
        return Failure(KeyError(after));
      }
      next := next[rest[|rest| - 1] := next[after]];
      rest := rest[..|rest| - 1];
      k := k + 1;
    }
    HalfOf(|run|, k, |rest|);
    return Success((next, rest));
  }

  /**
   * Fills one run that does not start at 0 (one pass of the loop at the end of the
   * run-based filler). It copies inwards from both ends until at most one index is
   * left; an odd-length run leaves its middle index, which joins both neighbours.
   * Fails with a key error when the index after the run has no window.
   */
  method FillRun(m: map<int, Window>, h: int, cur: map<int, Window>, run: seq<int>)
    returns (r: Result<map<int, Window>>)
    requires IsRun(run) && IsMissingRun(m, h, run[0], Last(run)) && 0 < run[0]
    requires forall x :: x in m ==> x in cur && cur[x] == m[x]
    requires forall x :: x in cur ==> x in m || 0 <= x < h
    ensures r.Failure? <==> Last(run) + 1 !in m
    ensures r.Failure? ==> r.error == KeyError(Last(run) + 1)
    ensures r.Success? ==> Filled(m, r.value, run)
    ensures r.Success? ==> forall x :: x in r.value <==> x in cur || InRun(run, x)
    ensures r.Success? ==> forall x :: x in cur && !InRun(run, x) ==> r.value[x] == cur[x]
  {
    ghost var a, b := run[0], Last(run);
    assert InwardReady(m, cur, a, b);
    var ends := FillRunEnds(m, h, cur, run);
    if ends.Failure? {
      return Failure(ends.error);
    }
    var (next, rest) := ends.value;
    ghost var k := |run| / 2;
    if |rest| == 1 {
      var c := rest[0];
      InwardCells(m, cur, a, b, k);
      if c + 1 !in next {
        return Failure(KeyError(c + 1));
      }
      InwardMiddle(m, cur, run, k, c);
      next := next[c := (next[c - 1].1, next[c + 1].0)];
    } else {
      InwardDone(m, cur, run, k);
    }
    return Success(next);
  }

  /**
   * Fills the run that starts at index 0 with the window that follows it. Fails with a
   * key error when that index has no window.
   */
  method FillFirstRun(m: map<int, Window>, h: int, first: seq<int>) returns (r: Result<map<int, Window>>)
    requires IsRun(first) && IsMissingRun(m, h, first[0], Last(first)) && first[0] == 0
    ensures r.Failure? <==> Last(first) + 1 !in m
    ensures r.Failure? ==> r.error == KeyError(Last(first) + 1)
    ensures r.Success? ==> Filled(m, r.value, first)
    ensures r.Success? ==> forall x :: x in r.value <==> x in m || InRun(first, x)
    ensures r.Success? ==> forall x :: x in m ==> r.value[x] == m[x]
  {
    var anchor := Last(first) + 1;
    if anchor !in m {
      return Failure(KeyError(anchor));
    }
    var cur := m;
    for j := 0 to |first|
      invariant forall x :: x in cur <==> x in m || 0 <= x < j
      invariant forall x :: x in m ==> cur[x] == m[x]
      invariant forall x :: 0 <= x < j ==> cur[x] == m[anchor]
    {
      cur := cur[first[j] := cur[anchor]];
    }
    return Success(cur);
  }

  /** Every maximal missing run `a..b` of `m` below `h` holds, in `cur`, the windows the filler gives it. */
  ghost predicate RunsFilledBy(m: map<int, Window>, h: int, cur: map<int, Window>) {
    forall a, b :: IsMissingRun(m, h, a, b) ==>
      && (a == 0 || a - 1 in m) && b + 1 in m
      && forall i :: a <= i <= b ==> i in cur && cur[i] == RunFillValue(m, a, b, i)
  }

  /** The last run reaches the end of the route and `h` is not a key. */
  predicate OpenEndRun(m: map<int, Window>, h: int, runs: seq<seq<int>>)
    requires forall k :: 0 <= k < |runs| ==> |runs[k]| > 0
  {
    |runs| > 0 && Last(runs[|runs| - 1]) + 1 == h && h !in m
  }

  /** The failure conditions of the run-based filler, read off the runs. */
  lemma RunsFailure(m: map<int, Window>, h: int, runs: seq<seq<int>>)
    requires MissingRuns(m, h, runs)
    ensures OpenEnd(m, h) <==> OpenEndRun(m, h, runs)
    ensures AllPresent(m, h) || MissingOnlyPrefix(m, h) || OpenEnd(m, h)
            <==> |runs| == 0 || (|runs| == 1 && runs[0][0] == 0) || OpenEndRun(m, h, runs)
    ensures RunsLayout(m, h, runs)
    ensures forall k :: 0 < k < |runs| ==> 0 < runs[k][0]
  {
    RunsEmpty(m, h, runs);
    RunsPrefix(m, h, runs);
    RunsOpenEnd(m, h, runs);
    RunsStartLater(m, h, runs);
    RunCells(m, h, runs);
  }

  /** Once every run is filled, every missing index below `h` has its window. */
  lemma AllRunsFilled(m: map<int, Window>, h: int, runs: seq<seq<int>>, cur: map<int, Window>)
    requires MissingRuns(m, h, runs)
    requires forall k :: 0 <= k < |runs| ==> Filled(m, cur, runs[k])
    ensures forall i :: 0 <= i < h && i !in m ==> i in cur
    ensures RunsFilledBy(m, h, cur)
  {
    forall a, b | IsMissingRun(m, h, a, b)
      ensures (a == 0 || a - 1 in m) && b + 1 in m
      ensures forall i :: a <= i <= b ==> i in cur && cur[i] == RunFillValue(m, a, b, i)
    {
      var k := RunOf(m, h, runs, a, b);
      assert Filled(m, cur, runs[k]);
    }
    forall i | 0 <= i < h && i !in m
      ensures i in cur
    {
      var k := Locate(m, h, runs, i);
      assert Filled(m, cur, runs[k]);
    }
  }

  /**
   * The missing runs in scan order: each is a maximal run of missing indexes, each ends
   * more than one index before the next starts, and each but an open last one is
   * followed by a key.
   */
  predicate RunsLayout(m: map<int, Window>, h: int, all: seq<seq<int>>) {
    && (forall k :: 0 <= k < |all| ==> IsRun(all[k]) && IsMissingRun(m, h, all[k][0], Last(all[k])))
    && Separated(all)
    && (forall k :: 0 <= k < |all| ==> Last(all[k]) + 1 in m || (k == |all| - 1 && Last(all[k]) + 1 == h))
  }

  /**
   * Fills, in order, the runs that remain once a run at index 0 has been dealt with.
   * `all` holds every run and `runs` is its suffix from `off`; the runs before `off`
   * are already filled. Fails with a key error on `h` exactly when the last run reaches
   * the end of the route and `h` is not a key.
   */
  method FillRuns(m: map<int, Window>, h: int, cur: map<int, Window>, runs: seq<seq<int>>,
                  ghost all: seq<seq<int>>, ghost off: nat)
    returns (r: Result<map<int, Window>>)
    requires RunsLayout(m, h, all) && off <= |all| && runs == all[off..]
    requires forall k :: 0 <= k < |runs| ==> 0 < runs[k][0]
    requires forall x :: x in m ==> x in cur && cur[x] == m[x]
    requires forall x :: x in cur ==> x in m || 0 <= x < h
    requires forall k :: 0 <= k < off ==> Filled(m, cur, all[k])
    ensures r.Failure? <==> |runs| > 0 && OpenEndRun(m, h, all)
    ensures r.Failure? ==> r.error == KeyError(h)
    ensures r.Success? ==> forall x :: x in m ==> x in r.value && r.value[x] == m[x]
    ensures r.Success? ==> forall x :: x in r.value ==> x in m || 0 <= x < h
    ensures r.Success? ==> forall k :: 0 <= k < |all| ==> Filled(m, r.value, all[k])
  {
    var next := cur;
    for index := 0 to |runs|
      invariant forall x :: x in m ==> x in next && next[x] == m[x]
      invariant forall x :: x in next ==> x in m || 0 <= x < h
      invariant forall k :: 0 <= k < off + index ==> Filled(m, next, all[k])
    {
      RunReady(m, h, all, off, runs, index);
      var filled := FillRun(m, h, next, runs[index]);
      if filled.Failure? {
        return filled;
      }
      RunsStep(m, h, next, filled.value, all, off + index);
      next := filled.value;
    }
    return Success(next);
  }

  /** The run at position `index` of `runs` is one `FillRun` accepts, and it fails only at an open end. */
  lemma RunReady(m: map<int, Window>, h: int, all: seq<seq<int>>, off: nat, runs: seq<seq<int>>, index: nat)
    requires RunsLayout(m, h, all) && off <= |all| && runs == all[off..] && index < |runs|
    requires forall k :: 0 <= k < |runs| ==> 0 < runs[k][0]
    ensures IsRun(runs[index]) && IsMissingRun(m, h, runs[index][0], Last(runs[index])) && 0 < runs[index][0]
    ensures Last(runs[index]) + 1 !in m ==> OpenEndRun(m, h, all)
  {
    assert runs[index] == all[off + index];
  }

  /** Filling run `n` keeps the windows of `m`, adds indexes below `h` only and leaves the runs before it filled. */
  lemma RunsStep(m: map<int, Window>, h: int, prev: map<int, Window>, next: map<int, Window>,
                 all: seq<seq<int>>, n: nat)
    requires RunsLayout(m, h, all) && n < |all|
    requires forall x :: x in m ==> x in prev && prev[x] == m[x]
    requires forall x :: x in prev ==> x in m || 0 <= x < h
    requires forall k :: 0 <= k < n ==> Filled(m, prev, all[k])
    requires Filled(m, next, all[n])
    requires forall x :: x in next <==> x in prev || InRun(all[n], x)
    requires forall x :: x in prev && !InRun(all[n], x) ==> next[x] == prev[x]
    ensures forall x :: x in m ==> x in next && next[x] == m[x]
    ensures forall x :: x in next ==> x in m || 0 <= x < h
    ensures forall k :: 0 <= k < n + 1 ==> Filled(m, next, all[k])
  {
    forall x | x in m ensures x in next && next[x] == m[x] {
      assert !InRun(all[n], x);
    }
    forall k | 0 <= k < n ensures Filled(m, next, all[k]) {
      assert Last(all[k]) + 1 < all[n][0];
      assert Filled(m, prev, all[k]);
    }
  }

  /**
   * Fills every missing index below `h` from its neighbours, run by run. The windows
   * already present are kept. The call fails with an index error when no index is
   * missing, or when the only missing indexes form a run at the start. It fails with a
   * key error on `h` when the last index is missing and `h` is not a key.
   */
  method FillTimestampsByRuns(m: map<int, Window>, h: int) returns (r: Result<map<int, Window>>)
    ensures r.Failure? <==> AllPresent(m, h) || MissingOnlyPrefix(m, h) || OpenEnd(m, h)
    ensures r.Failure? ==> r.error == if OpenEnd(m, h) then KeyError(h) else IndexError
    ensures r.Success? ==> forall i :: i in m ==> i in r.value && r.value[i] == m[i]
    ensures r.Success? ==> forall i :: i in r.value <==> i in m || 0 <= i < h
    ensures r.Success? ==> RunsFilledBy(m, h, r.value)
  {
    var runs := MissingRanges(m, h);
    ghost var all := runs;
    RunsFailure(m, h, all);
    if |runs| == 0 {
      return Failure(IndexError);
    }
    var cur := m;
    ghost var off := 0;
    assert runs[0][0] in runs[0];
    if 0 in runs[0] {
      assert IsRun(all[0]) && IsMissingRun(m, h, all[0][0], Last(all[0]));
      var filled := FillFirstRun(m, h, runs[0]);
      if filled.Failure? {
        return filled;
      }
      cur := filled.value;
      runs := runs[1..];
      off := 1;
    }
    if |runs| == 0 {
      return Failure(IndexError);
    }
    if h in runs[|runs| - 1] {
      // Every run lies below `h`, so the end-of-route block is never entered.
      assert false;
    }
    var filled := FillRuns(m, h, cur, runs, all, off);
    if filled.Failure? {
      return filled;
    }
    cur := filled.value;
    AllRunsFilled(m, h, all, cur);
    assert Filled(m, cur, all[|all| - 1]);
    return Success(cur);
  }
}
