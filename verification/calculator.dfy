/**
 * The pure and loop-level parts of services/calculator.py: the propagate-based
 * timestamp filler that `map_to_map` uses, gap bridging, the choice of the start and
 * end node, and the ordering of the route-edge table.
 */
module Calculator {
  import opened Wrappers
  import opened Edges
  import opened Helpers
  import opened Time

  // ---------------------------------------------------------------------------
  // propagate_nearest_timestamp (calculator.py:53-72)
  // ---------------------------------------------------------------------------

  /** No index of `(lo, hi]` has a window in `m`. */
  predicate NoKeyIn(m: map<int, Window>, lo: int, hi: int) {
    forall g :: lo < g <= hi ==> g !in m
  }

  /**
   * The first `f` in `[lo, hi)` whose successor `f + 1` has a window, that is, one
   * less than the smallest key of `m` in `(lo, hi]`.
   */
  function FirstAnchor(m: map<int, Window>, lo: int, hi: int): (r: Option<int>)
    ensures r.None? ==> NoKeyIn(m, lo, hi)
    ensures r.Some? ==> lo <= r.value < hi && r.value + 1 in m && NoKeyIn(m, lo, r.value)
    decreases hi - lo
  {
    if hi <= lo then None
    else if lo + 1 in m then Some(lo)
    else FirstAnchor(m, lo + 1, hi)
  }

  /**
   * The map after propagate_nearest_timestamp. Downward from an index `>= 0` the loop
   * range is empty, and upward nothing happens when `index + 1` has a window. Otherwise
   * exactly one missing index receives a copy of its successor's window: the first `f`
   * in `[index + 1, |m|)` whose successor has one. No window already present changes.
   */
  function Propagate(m: map<int, Window>, index: int, upwards: bool): (r: map<int, Window>)
    requires upwards || 0 <= index
    ensures !upwards || index + 1 in m ==> r == m
    ensures forall k :: k in m ==> k in r && r[k] == m[k]
    ensures forall k :: k in r && k !in m ==>
              && upwards && index < k < |m.Keys| && k + 1 in m && r[k] == m[k + 1]
              && NoKeyIn(m, index, k)
    ensures r == m <==> !upwards || index + 1 in m || NoKeyIn(m, index + 1, |m.Keys|)
  {
    if !upwards || index + 1 in m then m
    else match FirstAnchor(m, index + 1, |m.Keys|)
      case None => m
      case Some(f) =>
        assert index + 1 !in m && NoKeyIn(m, index + 1, f);
        assert NoKeyIn(m, index, f);
        m[f := m[f + 1]]
  }

  /**
   * propagate_nearest_timestamp as a loop over `range(start, stop)`. The inner
   * back-copy loop runs over `range(f, start)` with `f >= start`, which is empty, so it
   * is not written out.
   */
  method PropagateNearestTimestamp(m: map<int, Window>, index: int, upwards: bool) returns (r: map<int, Window>)
    requires upwards || 0 <= index
    ensures r == Propagate(m, index, upwards)
  {
    var start, stop, step;
    if upwards {
      start, stop, step := index + 1, |m.Keys|, 1;
    } else {
      start, stop, step := index, 0, -1;
    }
    if start in m {
      return m;
    }
    var f := start;
    while f < stop
      invariant upwards ==> start <= f && FirstAnchor(m, f, stop) == FirstAnchor(m, start, stop)
      invariant !upwards ==> f == start && stop <= start
    {
      if f + step in m {
        return m[f := m[f + step]];
      }
      f := f + 1;
    }
    return m;
  }

  // ---------------------------------------------------------------------------
  // fill_timestamps (calculator.py:38-50)
  // ---------------------------------------------------------------------------

  /**
   * One pass of the loop at index `i`: an index without a window first propagates,
   * then joins the end of its predecessor's window to the start of its successor's;
   * a missing neighbour is a key error, the predecessor being looked up first.
   */
  function Step(c: map<int, Window>, i: int): (r: Result<map<int, Window>>)
    ensures r.Success? ==> i in r.value
    ensures r.Success? ==> forall k :: k in c ==> k in r.value && r.value[k] == c[k]
    ensures r.Success? ==> forall k :: k in r.value && k !in c ==>
              k == i || (i < k && k + 1 in c && NoKeyIn(c, i, k))
    ensures r.Failure? ==> i !in c && (r.error == KeyError(i - 1) || r.error == KeyError(i + 1))
    ensures i !in c && i - 1 !in c ==> r == Failure(KeyError(i - 1))
  {
    if i in c then Success(c)
    else
      var p := Propagate(c, i, true);
      if i - 1 !in p then Failure(KeyError(i - 1))
      else if i + 1 !in p then Failure(KeyError(i + 1))
      else Success(p[i := (p[i - 1].1, p[i + 1].0)])
  }

  /** The map after the passes at indexes `0 .. n - 1`, or the first error. */
  function FillUpTo(m0: map<int, Window>, n: nat): (r: Result<map<int, Window>>)
    ensures r.Success? ==> forall i :: 0 <= i < n ==> i in r.value
    ensures r.Success? ==> forall k :: k in m0 ==> k in r.value && r.value[k] == m0[k]
  {
    if n == 0 then Success(m0)
    else match FillUpTo(m0, n - 1)
      case Failure(e) => Failure(e)
      case Success(c) => Step(c, n - 1)
  }

  /** The two propagations before the loop: upward from 0, and downward from `h`. */
  function Prepare(m: map<int, Window>, h: nat): (r: map<int, Window>)
    ensures 0 in m ==> r == m
    ensures forall k :: k in m ==> k in r && r[k] == m[k]
    ensures forall k :: k in r && k !in m ==> 0 < k && k + 1 in m && NoKeyIn(m, 0, k) && r[k] == m[k + 1]
  {
    var m1 := if 0 !in m then Propagate(m, 0, true) else m;
    if h !in m1 then Propagate(m1, h, false) else m1
  }

  /** What fill_timestamps computes for the map `m` and the exclusive bound `h`. */
  function FillSpec(m: map<int, Window>, h: nat): (r: Result<map<int, Window>>)
    ensures r.Success? ==> forall i :: 0 <= i < h ==> i in r.value
    ensures r.Success? ==> forall k :: k in m ==> k in r.value && r.value[k] == m[k]
  {
    FillUpTo(Prepare(m, h), h)
  }

  /**
   * fill_timestamps as written: propagate from 0 and (to no effect) downward from `h`,
   * then fill each missing index below `h` in turn.
   */
  method FillTimestamps(m: map<int, Window>, h: nat) returns (r: Result<map<int, Window>>)
    ensures r == FillSpec(m, h)
  {
    var cur := m;
    if 0 !in cur {
      cur := PropagateNearestTimestamp(cur, 0, true);
    }
    if h !in cur {
      cur := PropagateNearestTimestamp(cur, h, false);
    }
    ghost var start := cur;
    for i := 0 to h
      invariant FillUpTo(start, i) == Success(cur)
    {
      if i !in cur {
        cur := PropagateNearestTimestamp(cur, i, true);
        if i - 1 !in cur {
          FailureStays(start, i + 1, h);
          return Failure(KeyError(i - 1));
        }
        if i + 1 !in cur {
          FailureStays(start, i + 1, h);
          return Failure(KeyError(i + 1));
        }
        cur := cur[i := (cur[i - 1].1, cur[i + 1].0)];
      }
    }
    return Success(cur);
  }

  /** Once a pass fails, the fill fails with the same error. */
  lemma {:induction false} FailureStays(m0: map<int, Window>, n: nat, n': nat)
    requires n <= n' && FillUpTo(m0, n).Failure?
    ensures FillUpTo(m0, n') == FillUpTo(m0, n)
    decreases n' - n
  {
    if n < n' {
      FailureStays(m0, n, n' - 1);
    }
  }

  /** A later successful state extends every earlier one. */
  lemma {:induction false} SuccessExtends(m0: map<int, Window>, n: nat, n': nat)
    requires n <= n' && FillUpTo(m0, n').Success?
    ensures FillUpTo(m0, n).Success?
    ensures forall k :: k in FillUpTo(m0, n).value ==>
              k in FillUpTo(m0, n').value && FillUpTo(m0, n').value[k] == FillUpTo(m0, n).value[k]
    decreases n' - n
  {
    if n < n' {
      SuccessExtends(m0, n, n' - 1);
    }
  }

  /** When every index below `h` has a window, the passes change nothing. */
  lemma {:induction false} PassesIdle(m: map<int, Window>, h: nat, n: nat)
    requires AllPresent(m, h) && n <= h
    ensures FillUpTo(m, n) == Success(m)
  {
    if n > 0 {
      PassesIdle(m, h, n - 1);
    }
  }

  /** A map with a window at every index below `h`, and at 0, comes back unchanged. */
  lemma FillAllPresent(m: map<int, Window>, h: nat)
    requires AllPresent(m, h) && 0 in m
    ensures FillSpec(m, h) == Success(m)
  {
    PassesIdle(m, h, h);
  }

  /** A missing index 0 makes the first pass look up key -1. */
  lemma FillMissingFirst(m: map<int, Window>, h: nat)
    requires 0 < h && 0 !in m && -1 !in m
    ensures FillSpec(m, h) == Failure(KeyError(-1))
  {
    var s := Prepare(m, h);
    assert FillUpTo(s, 1) == Step(s, 0);
    FailureStays(s, 1, h);
  }

  /** Passes below `b` over a map whose keys are all below `b` add keys below `b` only. */
  lemma {:induction false} KeysStayBelow(m0: map<int, Window>, b: int, n: nat)
    requires n <= b && forall k :: k in m0 ==> k < b
    ensures FillUpTo(m0, n).Success? ==> forall k :: k in FillUpTo(m0, n).value ==> k < b
  {
    if n > 0 {
      KeysStayBelow(m0, b, n - 1);
    }
  }

  /** The passes up to `n + 1` are the passes up to `n` followed by the pass at `n`. */
  lemma FillUpToNext(m0: map<int, Window>, n: nat)
    ensures FillUpTo(m0, n).Failure? ==> FillUpTo(m0, n + 1) == FillUpTo(m0, n)
    ensures FillUpTo(m0, n).Success? ==> FillUpTo(m0, n + 1) == Step(FillUpTo(m0, n).value, n)
  {
  }

  /**
   * A pass at an index above every key fails: no window after it can be found or
   * copied, so with a window before it the error names the key `i + 1`.
   */
  lemma StepPastKeys(c: map<int, Window>, i: int)
    requires forall k :: k in c ==> k < i
    ensures Step(c, i).Failure?
    ensures i - 1 in c ==> Step(c, i) == Failure(KeyError(i + 1))
  {
    var p := Propagate(c, i, true);
    assert i + 1 !in p;
  }

  /**
   * When the last index `h - 1` has no window and no key reaches it, the fill fails:
   * at the latest, the pass at `h - 1` looks up key `h`, and it is that lookup that
   * fails when the passes before it succeed.
   */
  lemma FillMissingLast(m: map<int, Window>, h: nat)
    requires 0 < h && forall k :: k in m ==> k < h - 1
    ensures FillSpec(m, h).Failure?
    ensures 1 < h && FillUpTo(Prepare(m, h), h - 1).Success? ==> FillSpec(m, h) == Failure(KeyError(h))
  {
    var s := Prepare(m, h);
    forall k | k in s ensures k < h - 1 {
      if k !in m {
        assert k + 1 in m;
      }
    }
    LastPassFails(s, h - 1);
  }

  /** When every key lies below `n`, the pass at `n` fails, on key `n + 1` once the earlier passes succeed. */
  lemma LastPassFails(s: map<int, Window>, n: nat)
    requires forall k :: k in s ==> k < n
    ensures FillUpTo(s, n + 1).Failure?
    ensures 0 < n && FillUpTo(s, n).Success? ==> FillUpTo(s, n + 1) == Failure(KeyError(n + 1))
  {
    KeysStayBelow(s, n, n);
    FillUpToNext(s, n);
    if FillUpTo(s, n).Success? {
      StepPastKeys(FillUpTo(s, n).value, n);
    }
  }

  /** While `i - 1` has a window, the passes before `i` add keys below `i - 1` only. */
  lemma {:induction false} PassesStayBelow(m0: map<int, Window>, i: int, n: nat)
    requires i - 1 in m0 && n <= i
    ensures FillUpTo(m0, n).Success? ==> forall k :: k in FillUpTo(m0, n).value && k !in m0 ==> k < i - 1
  {
    if n > 0 {
      PassesStayBelow(m0, i, n - 1);
      if FillUpTo(m0, n).Success? {
        var c := FillUpTo(m0, n - 1).value;
        assert i - 1 in c;
      }
    }
  }

  /** The preparation adds keys below `i - 1` only, when `i - 1` has a window. */
  lemma PrepareStaysBelow(m: map<int, Window>, h: nat, i: int)
    requires 1 <= i && i - 1 in m
    ensures forall k :: k in Prepare(m, h) && k !in m ==> k < i - 1
  {
    if i > 1 {
      forall k | k in Prepare(m, h) && k !in m ensures k < i - 1 {
        assert NoKeyIn(m, 0, k);
      }
    }
  }

  /** The state before the pass at `i`: the windows of `m`, plus keys below `i - 1` only. */
  lemma StateBeforePass(m: map<int, Window>, h: nat, i: int) returns (c: map<int, Window>)
    requires 1 <= i <= h && i - 1 in m && FillUpTo(Prepare(m, h), i).Success?
    ensures c == FillUpTo(Prepare(m, h), i).value
    ensures forall k :: k in m ==> k in c && c[k] == m[k]
    ensures forall k :: k in c && k !in m ==> k < i - 1
  {
    var s := Prepare(m, h);
    PrepareStaysBelow(m, h, i);
    PassesStayBelow(s, i, i);
    c := FillUpTo(s, i).value;
  }

  /** The pass at a gap of one index. */
  lemma StepSingleGap(c: map<int, Window>, i: int)
    requires i !in c && i - 1 in c && i + 1 in c
    ensures Step(c, i) == Success(c[i := (c[i - 1].1, c[i + 1].0)])
  {
  }

  /** The pass at the first index of a gap of two. */
  lemma StepDoubleGap(c: map<int, Window>, i: int)
    requires i !in c && i + 1 !in c && i - 1 in c && i + 2 in c
    ensures Step(c, i).Success? ==>
              && i + 1 in Step(c, i).value
              && Step(c, i).value[i] == (c[i - 1].1, c[i + 2].0)
              && Step(c, i).value[i + 1] == c[i + 2]
  {
    var p := Propagate(c, i, true);
    if i + 1 in p {
      assert p[i + 1] == c[i + 2];
    }
  }

  /** A gap of one index `i` receives the end of the window before it and the start of the one after it. */
  lemma FillSingleGap(m: map<int, Window>, h: nat, i: int)
    requires 1 <= i < h && i !in m && i - 1 in m && i + 1 in m
    ensures FillSpec(m, h).Success? ==> FillSpec(m, h).value[i] == (m[i - 1].1, m[i + 1].0)
  {
    if FillSpec(m, h).Success? {
      SuccessExtends(Prepare(m, h), i + 1, h);
      SingleGapPass(m, h, i);
    }
  }

  lemma SingleGapPass(m: map<int, Window>, h: nat, i: int)
    requires 1 <= i < h && i !in m && i - 1 in m && i + 1 in m
    requires FillUpTo(Prepare(m, h), i + 1).Success?
    ensures FillUpTo(Prepare(m, h), i + 1).value[i] == (m[i - 1].1, m[i + 1].0)
  {
    SuccessExtends(Prepare(m, h), i, i + 1);
    var c := StateBeforePass(m, h, i);
    StepSingleGap(c, i);
  }

  /**
   * A gap of two indexes `i, i + 1`: the pass at `i` first copies the window after the
   * gap into `i + 1`, then joins its neighbours at `i`; the pass at `i + 1` has nothing
   * left to do.
   */
  lemma FillDoubleGap(m: map<int, Window>, h: nat, i: int)
    requires 1 <= i < h && i !in m && i + 1 !in m && i - 1 in m && i + 2 in m
    ensures FillSpec(m, h).Success? ==>
              && i + 1 in FillSpec(m, h).value
              && FillSpec(m, h).value[i] == (m[i - 1].1, m[i + 2].0)
              && FillSpec(m, h).value[i + 1] == m[i + 2]
  {
    if FillSpec(m, h).Success? {
      SuccessExtends(Prepare(m, h), i + 1, h);
      DoubleGapPass(m, h, i);
    }
  }

  lemma DoubleGapPass(m: map<int, Window>, h: nat, i: int)
    requires 1 <= i < h && i !in m && i + 1 !in m && i - 1 in m && i + 2 in m
    requires FillUpTo(Prepare(m, h), i + 1).Success?
    ensures i + 1 in FillUpTo(Prepare(m, h), i + 1).value
    ensures FillUpTo(Prepare(m, h), i + 1).value[i] == (m[i - 1].1, m[i + 2].0)
    ensures FillUpTo(Prepare(m, h), i + 1).value[i + 1] == m[i + 2]
  {
    SuccessExtends(Prepare(m, h), i, i + 1);
    var c := StateBeforePass(m, h, i);
    StepDoubleGap(c, i);
  }

  /** A gap of three or more indexes makes the pass at its first index look up the second. */
  lemma FillLongGap(m: map<int, Window>, h: nat, i: int)
    requires 1 <= i < h && i - 1 in m && i !in m && i + 1 !in m && i + 2 !in m
    ensures FillSpec(m, h).Failure?
  {
    var s := Prepare(m, h);
    PrepareStaysBelow(m, h, i);
    GapPassFails(m, s, i);
    FailureStays(s, i + 1, h);
  }

  /** The passes up to the one at `i` fail when `i`, `i + 1` and `i + 2` have no window. */
  lemma GapPassFails(m: map<int, Window>, s: map<int, Window>, i: nat)
    requires 1 <= i && i - 1 in m && i !in m && i + 1 !in m && i + 2 !in m
    requires forall k :: k in m ==> k in s
    requires forall k :: k in s && k !in m ==> k < i - 1
    ensures FillUpTo(s, i + 1).Failure?
  {
    PassesStayBelow(s, i, i);
    FillUpToNext(s, i);
    if FillUpTo(s, i).Success? {
      var c := FillUpTo(s, i).value;
      assert i !in c && i + 1 !in c && i + 2 !in c;
      GapStepFails(c, i);
    }
  }

  /** A pass at `i` fails when neither `i + 1` nor `i + 2` has a window to copy. */
  lemma GapStepFails(c: map<int, Window>, i: int)
    requires i !in c && i + 1 !in c && i + 2 !in c
    ensures Step(c, i).Failure?
  {
    var p := Propagate(c, i, true);
    assert i + 1 !in p;
  }

  /**
   * The upward search stops at `len(map)`: with windows at 0 and 3 only, the search
   * from 1 never reaches 3, so the gap 1..2 is not bridged and key 2 is looked up.
   */
  lemma FillStopsAtMapLength(a: Window, b: Window)
    ensures FillSpec(map[0 := a, 3 := b], 4) == Failure(KeyError(2))
  {
    var m := map[0 := a, 3 := b];
    assert m.Keys == {0, 3};
    assert |m.Keys| == 2;
    assert FillUpTo(m, 1) == Success(m);
    assert Propagate(m, 1, true) == m;
    assert FillUpTo(m, 2) == Failure(KeyError(2));
    FailureStays(m, 2, 4);
  }

  /** With two more windows the same gap is bridged: 2 copies 3, then 1 joins 0 and 2. */
  lemma FillBridgesWithinMapLength(a: Window, b: Window, c: Window, d: Window)
    ensures FillSpec(map[0 := a, 3 := b, 4 := c, 5 := d], 4)
         == Success(map[0 := a, 1 := (a.1, b.0), 2 := b, 3 := b, 4 := c, 5 := d])
  {
    var m := map[0 := a, 3 := b, 4 := c, 5 := d];
    var want := map[0 := a, 1 := (a.1, b.0), 2 := b, 3 := b, 4 := c, 5 := d];
    assert Prepare(m, 4) == m;
    BridgingPass(a, b, c, d);
    assert FillUpTo(m, 3) == Success(want);
    assert FillUpTo(m, 4) == Success(want);
  }

  lemma BridgingPass(a: Window, b: Window, c: Window, d: Window)
    ensures FillUpTo(map[0 := a, 3 := b, 4 := c, 5 := d], 2)
         == Success(map[0 := a, 1 := (a.1, b.0), 2 := b, 3 := b, 4 := c, 5 := d])
  {
    var m := map[0 := a, 3 := b, 4 := c, 5 := d];
    FillUpToNext(m, 0);
    assert Step(m, 0) == Success(m);
    FillUpToNext(m, 1);
    BridgingStep(a, b, c, d);
  }

  /** At index 1 the propagation copies the window of 3 into 2, and 1 joins 0 and 2. */
  lemma BridgingStep(a: Window, b: Window, c: Window, d: Window)
    ensures Step(map[0 := a, 3 := b, 4 := c, 5 := d], 1)
         == Success(map[0 := a, 1 := (a.1, b.0), 2 := b, 3 := b, 4 := c, 5 := d])
  {
    BridgingPropagate(a, b, c, d);
    BridgingMap(a, b, c, d);
  }

  lemma BridgingMap(a: Window, b: Window, c: Window, d: Window)
    ensures map[0 := a, 3 := b, 4 := c, 5 := d][2 := b][1 := (a.1, b.0)]
         == map[0 := a, 1 := (a.1, b.0), 2 := b, 3 := b, 4 := c, 5 := d]
  {
  }

  /** Upward from 1 the first index whose successor has a window is 2. */
  lemma BridgingPropagate(a: Window, b: Window, c: Window, d: Window)
    ensures Propagate(map[0 := a, 3 := b, 4 := c, 5 := d], 1, true) == map[0 := a, 3 := b, 4 := c, 5 := d][2 := b]
  {
    var m := map[0 := a, 3 := b, 4 := c, 5 := d];
    assert m.Keys == {0, 3, 4, 5};
    assert FirstAnchor(m, 2, 4) == Some(2);
  }

  // ---------------------------------------------------------------------------
  // Calculator.fill_edge_gaps (calculator.py:103-119)
  // ---------------------------------------------------------------------------

  /**
   * `in_edges(n)` or `out_edges(n)` of the road multigraph: the `(u, v)` pair of
   * every edge into or out of `n`, once per parallel edge.
   */
  type Adjacency = NodeId -> seq<(NodeId, NodeId)>

  /** The graph's lists agree with their node: in-edges end at it, out-edges start at it. */
  ghost predicate WellFormed(inEdges: Adjacency, outEdges: Adjacency) {
    && (forall n: NodeId, p :: p in inEdges(n) ==> p.1 == n)
    && (forall n: NodeId, p :: p in outEdges(n) ==> p.0 == n)
  }

  /** The four lists the loop appends for one nearest edge. */
  function Incident(e: EdgeKey, inEdges: Adjacency, outEdges: Adjacency): seq<seq<(NodeId, NodeId)>> {
    [inEdges(e.u), outEdges(e.u), inEdges(e.v), outEdges(e.v)]
  }

  /** `p` is an edge into or out of an endpoint of `e`. */
  predicate Neighbour(p: (NodeId, NodeId), e: EdgeKey, inEdges: Adjacency, outEdges: Adjacency) {
    p in inEdges(e.u) || p in outEdges(e.u) || p in inEdges(e.v) || p in outEdges(e.v)
  }

  /** `p` is an edge into or out of an endpoint of some edge of `edges`. */
  predicate NeighbourOfSome(p: (NodeId, NodeId), edges: seq<EdgeKey>, inEdges: Adjacency, outEdges: Adjacency) {
    exists j :: 0 <= j < |edges| && Neighbour(p, edges[j], inEdges, outEdges)
  }

  /** `x` is in one of the lists of `ss`. */
  predicate InSome<T(==)>(x: T, ss: seq<seq<T>>) {
    exists i :: 0 <= i < |ss| && x in ss[i]
  }

  /** The list of lists that the loop over the nearest edges builds. */
  function AllIncident(edges: seq<EdgeKey>, inEdges: Adjacency, outEdges: Adjacency): (r: seq<seq<(NodeId, NodeId)>>)
    ensures |r| == 4 * |edges|
  {
    if |edges| == 0 then []
    else AllIncident(edges[..|edges| - 1], inEdges, outEdges) + Incident(edges[|edges| - 1], inEdges, outEdges)
  }

  /** The flattening comprehension: the lists one after the other. */
  function Flatten(ss: seq<seq<(NodeId, NodeId)>>): (r: seq<(NodeId, NodeId)>)
    ensures forall x :: x in r <==> InSome(x, ss)
  {
    if |ss| == 0 then []
    else
      var n := |ss| - 1;
      InSomeSnoc(ss, n);
      Flatten(ss[..n]) + ss[n]
  }

  /** Flattening keeps the lists in order: a concatenation flattens to the two flattenings one after the other. */
  lemma {:induction false} FlattenConcat(a: seq<seq<(NodeId, NodeId)>>, b: seq<seq<(NodeId, NodeId)>>)
    ensures Flatten(a + b) == Flatten(a) + Flatten(b)
  {
    if |b| == 0 {
      assert a + b == a;
    } else {
      var n := |b| - 1;
      var ab := a + b;
      assert ab[..|ab| - 1] == a + b[..n] && ab[|ab| - 1] == b[n];
      assert Flatten(ab) == Flatten(a + b[..n]) + b[n];
      assert Flatten(b) == Flatten(b[..n]) + b[n];
      FlattenConcat(a, b[..n]);
    }
  }

  /** Being in one of the lists of `ss` is being in one of all but the last, or in the last. */
  lemma InSomeSnoc<T>(ss: seq<seq<T>>, n: nat)
    requires n + 1 == |ss|
    ensures forall x :: InSome(x, ss) <==> InSome(x, ss[..n]) || x in ss[n]
  {
    forall x | InSome(x, ss) ensures InSome(x, ss[..n]) || x in ss[n] {
      var i :| 0 <= i < |ss| && x in ss[i];
      if i < n {
        assert ss[..n][i] == ss[i];
      }
    }
    forall x | InSome(x, ss[..n]) ensures InSome(x, ss) {
      var i :| 0 <= i < n && x in ss[..n][i];
      assert ss[i] == ss[..n][i];
    }
  }

  /** The normalising comprehension: every pair becomes the triple with key 0. */
  function WithKeyZero(pairs: seq<(NodeId, NodeId)>): (r: seq<EdgeKey>)
    ensures |r| == |pairs| && forall i :: 0 <= i < |pairs| ==> r[i] == EdgeKey(pairs[i].0, pairs[i].1, 0)
    ensures forall e: EdgeKey :: e in r <==> e.key == 0 && (e.u, e.v) in pairs
  {
    var r := seq(|pairs|, i requires 0 <= i < |pairs| => EdgeKey(pairs[i].0, pairs[i].1, 0));
    assert forall e: EdgeKey :: e.key == 0 && (e.u, e.v) in pairs ==> e in r by {
      forall e: EdgeKey | e.key == 0 && (e.u, e.v) in pairs ensures e in r {
        var i :| 0 <= i < |pairs| && pairs[i] == (e.u, e.v);
        assert r[i] == e;
      }
    }
    r
  }

  /**
   * What fill_edge_gaps returns: no edge twice, and exactly the key-0 triples of the
   * edges into or out of an endpoint of a nearest edge.
   */
  function GapEdges(nearest: seq<EdgeKey>, inEdges: Adjacency, outEdges: Adjacency): (r: seq<EdgeKey>)
    ensures Distinct(r)
    ensures forall e: EdgeKey :: e in r <==> e.key == 0 && NeighbourOfSome((e.u, e.v), nearest, inEdges, outEdges)
    ensures var flat := WithKeyZero(Flatten(AllIncident(nearest, inEdges, outEdges)));
      r == Pick(flat, FirstOccurrences(flat))
  {
    var lists := AllIncident(nearest, inEdges, outEdges);
    AllIncidentNeighbours(nearest, inEdges, outEdges);
    var flat := WithKeyZero(Flatten(lists));
    PickFirstOccurrences(flat);
    RemoveDuplicatesMembers(flat);
    RemoveDuplicates(flat)
  }

  /** A pair is in one of the loop's lists exactly when it touches an endpoint of a nearest edge. */
  lemma {:induction false} AllIncidentNeighbours(edges: seq<EdgeKey>, inEdges: Adjacency, outEdges: Adjacency)
    ensures forall p :: InSome(p, AllIncident(edges, inEdges, outEdges)) <==> NeighbourOfSome(p, edges, inEdges, outEdges)
  {
    if |edges| > 0 {
      var n := |edges| - 1;
      var init := AllIncident(edges[..n], inEdges, outEdges);
      var last := Incident(edges[n], inEdges, outEdges);
      AllIncidentNeighbours(edges[..n], inEdges, outEdges);
      assert AllIncident(edges, inEdges, outEdges) == init + last;
      forall p ensures InSome(p, init + last) <==> InSome(p, init) || InSome(p, last) {
        if InSome(p, init + last) {
          var i :| 0 <= i < |init + last| && p in (init + last)[i];
          if i < |init| {
            assert init[i] == (init + last)[i];
          } else {
            assert last[i - |init|] == (init + last)[i];
          }
        }
        if InSome(p, init) {
          var i :| 0 <= i < |init| && p in init[i];
          assert (init + last)[i] == init[i];
        }
        if InSome(p, last) {
          var i :| 0 <= i < |last| && p in last[i];
          assert (init + last)[|init| + i] == last[i];
        }
      }
      forall p ensures InSome(p, last) <==> Neighbour(p, edges[n], inEdges, outEdges) {
        if Neighbour(p, edges[n], inEdges, outEdges) {
          if p in inEdges(edges[n].u) { assert p in last[0]; }
          else if p in outEdges(edges[n].u) { assert p in last[1]; }
          else if p in inEdges(edges[n].v) { assert p in last[2]; }
          else { assert p in last[3]; }
        }
      }
      forall p ensures NeighbourOfSome(p, edges, inEdges, outEdges)
                   <==> NeighbourOfSome(p, edges[..n], inEdges, outEdges) || Neighbour(p, edges[n], inEdges, outEdges) {
        if NeighbourOfSome(p, edges, inEdges, outEdges) {
          var j :| 0 <= j < |edges| && Neighbour(p, edges[j], inEdges, outEdges);
          if j < n {
            assert edges[..n][j] == edges[j];
          }
        }
        if NeighbourOfSome(p, edges[..n], inEdges, outEdges) {
          var j :| 0 <= j < n && Neighbour(p, edges[..n][j], inEdges, outEdges);
          assert edges[j] == edges[..n][j];
        }
      }
    }
  }

  /**
   * fill_edge_gaps: a loop appends, per nearest edge, the in- and out-edges of its
   * first and then of its second node; the lists are flattened, given key 0 and
   * deduplicated in first-occurrence order.
   */
  method FillEdgeGaps(nearest: seq<EdgeKey>, inEdges: Adjacency, outEdges: Adjacency) returns (extra: seq<EdgeKey>)
    ensures extra == GapEdges(nearest, inEdges, outEdges)
  {
    var lists: seq<seq<(NodeId, NodeId)>> := [];
    for i := 0 to |nearest|
      invariant lists == AllIncident(nearest[..i], inEdges, outEdges)
    {
      var edge := nearest[i];
      lists := lists + [inEdges(edge.u)];
      lists := lists + [outEdges(edge.u)];
      lists := lists + [inEdges(edge.v)];
      lists := lists + [outEdges(edge.v)];
      assert nearest[..i + 1][..i] == nearest[..i];
    }
    assert nearest[..|nearest|] == nearest;
    extra := RemoveDuplicates(WithKeyZero(Flatten(lists)));
  }

  /** `e` shares a node with `n`. */
  predicate Touches(e: EdgeKey, n: EdgeKey) {
    e.u == n.u || e.u == n.v || e.v == n.u || e.v == n.v
  }

  /** In a well-formed graph every bridging edge shares a node with some nearest edge. */
  lemma GapEdgesTouchNearest(nearest: seq<EdgeKey>, inEdges: Adjacency, outEdges: Adjacency, e: EdgeKey)
    requires WellFormed(inEdges, outEdges) && e in GapEdges(nearest, inEdges, outEdges)
    ensures exists j :: 0 <= j < |nearest| && Touches(e, nearest[j])
  {
    var j :| 0 <= j < |nearest| && Neighbour((e.u, e.v), nearest[j], inEdges, outEdges);
    assert Touches(e, nearest[j]);
  }

  /**
   * In a well-formed graph every edge leaving a nearest edge's first node, the nearest
   * edge itself included, is among the bridging edges with key 0.
   */
  lemma GapEdgesCoverOutEdges(nearest: seq<EdgeKey>, inEdges: Adjacency, outEdges: Adjacency, j: int, w: NodeId)
    requires 0 <= j < |nearest| && (nearest[j].u, w) in outEdges(nearest[j].u)
    ensures EdgeKey(nearest[j].u, w, 0) in GapEdges(nearest, inEdges, outEdges)
  {
    assert Neighbour((nearest[j].u, w), nearest[j], inEdges, outEdges);
  }

  // ---------------------------------------------------------------------------
  // start and end of the route (calculator.py:165-174)
  // ---------------------------------------------------------------------------

  /** Python's `x in (u, v, key)` on an edge triple: the key is compared as well. */
  predicate InTriple(x: NodeId, e: EdgeKey) {
    x == e.u || x == e.v || x == e.key
  }

  /**
   * The start and end node that map_to_map passes to the path solver: the first node
   * of the first edge if the second edge's triple holds it, else its second node; the
   * end likewise from the last edge against the one before it. Fewer than two distinct
   * nearest edges is an index error.
   */
  function RouteEnds(nearest: seq<EdgeKey>): (r: Result<(NodeId, NodeId)>)
    ensures r.Failure? <==> |nearest| < 2
    ensures r.Failure? ==> r.error == IndexError
    ensures r.Success? ==>
              && (r.value.0 == nearest[0].u <==> InTriple(nearest[0].u, nearest[1]) || nearest[0].u == nearest[0].v)
              && (r.value.0 == nearest[0].u || r.value.0 == nearest[0].v)
    ensures r.Success? ==>
              var last, prev := nearest[|nearest| - 1], nearest[|nearest| - 2];
              && (r.value.1 == last.u <==> InTriple(last.u, prev) || last.u == last.v)
              && (r.value.1 == last.u || r.value.1 == last.v)
  {
    if |nearest| < 2 then Failure(IndexError)
    else
      var first, second := nearest[0], nearest[1];
      var last, prev := nearest[|nearest| - 1], nearest[|nearest| - 2];
      var start := if InTriple(first.u, second) then first.u else first.v;
      var end := if InTriple(last.u, prev) then last.u else last.v;
      Success((start, end))
  }

  /**
   * When the first two edges share exactly one node and the second edge's key is not a
   * node of the first, the start is that shared node; likewise for the end.
   */
  lemma RouteEndsAreSharedNodes(nearest: seq<EdgeKey>, s: NodeId, t: NodeId)
    requires |nearest| >= 2
    requires s == nearest[0].u || s == nearest[0].v
    requires s == nearest[1].u || s == nearest[1].v
    requires nearest[0].u != s ==> !InTriple(nearest[0].u, nearest[1])
    requires nearest[0].u == s || nearest[0].v == s
    requires var last, prev := nearest[|nearest| - 1], nearest[|nearest| - 2];
             && (t == last.u || t == last.v) && (t == prev.u || t == prev.v)
             && (last.u != t ==> !InTriple(last.u, prev))
    ensures RouteEnds(nearest) == Success((s, t))
  {
  }

  /**
   * The key takes part in the membership test: with edges `(0, 5, 0)` and `(5, 7, 0)`
   * the start is node 0, which the second edge does not touch, and not the shared
   * node 5 that the end resolves to.
   */
  lemma RouteStartMatchesKey()
    ensures RouteEnds([EdgeKey(0, 5, 0), EdgeKey(5, 7, 0)]) == Success((0, 5))
  {
  }

  // ---------------------------------------------------------------------------
  // Calculator.get_sorted_route_df (calculator.py:121-147)
  // ---------------------------------------------------------------------------

  /** The pass at route position `i` marks `row`: it leaves node `route[i]` and does not go back to the node before. */
  predicate Qualifies(row: EdgeRow, route: seq<NodeId>, i: int)
    requires 0 <= i < |route|
  {
    row.u == route[i] && (i == 0 || row.v != route[i - 1])
  }

  /** The order a row holds after the passes at positions `0 .. n - 1`: the last one that marked it. */
  function LastQualifying(row: EdgeRow, route: seq<NodeId>, n: nat): (r: Option<nat>)
    requires n <= |route|
    ensures r.Some? ==> r.value < n && Qualifies(row, route, r.value)
    ensures r.Some? ==> forall j :: r.value < j < n ==> !Qualifies(row, route, j)
    ensures r.None? <==> forall j :: 0 <= j < n ==> !Qualifies(row, route, j)
  {
    if n == 0 then None
    else if Qualifies(row, route, n - 1) then Some(n - 1)
    else LastQualifying(row, route, n - 1)
  }

  /** The final order of a row, None where the column stays null. */
  function OrderOf(row: EdgeRow, route: seq<NodeId>): Option<nat> {
    LastQualifying(row, route, |route|)
  }

  /** The sort key of a row; 0 for rows without an order, which the filter drops. */
  function Rank(row: EdgeRow, route: seq<NodeId>): nat {
    match OrderOf(row, route)
    case None => 0
    case Some(i) => i
  }

  /** The rows whose entry in `order` is set, in table order. */
  function Filter(rows: seq<EdgeRow>, order: seq<Option<nat>>): (r: seq<EdgeRow>)
    requires |order| == |rows|
    ensures forall x :: x in r ==> exists k :: 0 <= k < |rows| && rows[k] == x && order[k].Some?
    ensures forall k :: 0 <= k < |rows| && order[k].Some? ==> rows[k] in r
    ensures multiset(r) <= multiset(rows)
  {
    if |rows| == 0 then []
    else
      var n := |rows| - 1;
      var init := Filter(rows[..n], order[..n]);
      assert rows == rows[..n] + [rows[n]];
      if order[n].Some? then init + [rows[n]] else init
  }

  /** The positions of `rows` that hold `x` and whose entry in `order` is set. */
  function KeptAt(rows: seq<EdgeRow>, order: seq<Option<nat>>, x: EdgeRow): set<nat>
    requires |order| == |rows|
  {
    set k: nat | k < |rows| && rows[k] == x && order[k].Some?
  }

  /** The filter keeps every row with its order set, once per such position, and nothing else. */
  lemma {:induction false} FilterCount(rows: seq<EdgeRow>, order: seq<Option<nat>>)
    requires |order| == |rows|
    ensures forall x :: multiset(Filter(rows, order))[x] == |KeptAt(rows, order, x)|
  {
    if |rows| > 0 {
      var n := |rows| - 1;
      FilterCount(rows[..n], order[..n]);
      FilterSnoc(rows, order);
      forall x ensures multiset(Filter(rows, order))[x] == |KeptAt(rows, order, x)| {
        KeptAtSnoc(rows, order, x);
      }
    }
  }

  /** Filtering one more row adds that row when its order is set. */
  lemma FilterSnoc(rows: seq<EdgeRow>, order: seq<Option<nat>>)
    requires |order| == |rows| > 0
    ensures var n := |rows| - 1;
      multiset(Filter(rows, order))
        == multiset(Filter(rows[..n], order[..n])) + if order[n].Some? then multiset{rows[n]} else multiset{}
  {
  }

  /** One more row adds one kept position for its own value when its order is set. */
  lemma KeptAtSnoc(rows: seq<EdgeRow>, order: seq<Option<nat>>, x: EdgeRow)
    requires |order| == |rows| > 0
    ensures var n := |rows| - 1;
      |KeptAt(rows, order, x)| == |KeptAt(rows[..n], order[..n], x)| + if rows[n] == x && order[n].Some? then 1 else 0
  {
    var n := |rows| - 1;
    var before := KeptAt(rows[..n], order[..n], x);
    KeptAtSnocSet(rows, order, x, n, before, KeptAt(rows, order, x));
    assert n !in before;
  }

  /** The kept positions of `x` in `rows` are those of all but the last row, plus the last one when it holds `x` with its order set. */
  lemma KeptAtSnocSet(rows: seq<EdgeRow>, order: seq<Option<nat>>, x: EdgeRow, n: nat, before: set<nat>, after: set<nat>)
    requires |order| == |rows| == n + 1
    requires before == KeptAt(rows[..n], order[..n], x) && after == KeptAt(rows, order, x)
    ensures after == before + if rows[n] == x && order[n].Some? then {n} else {}
  {
    forall k: nat | k < n ensures k in after <==> k in before {
      assert rows[..n][k] == rows[k] && order[..n][k] == order[k];
    }
  }

  /** The order column after the loop. */
  function OrderColumn(rows: seq<EdgeRow>, route: seq<NodeId>): (r: seq<Option<nat>>)
    ensures |r| == |rows| && forall k :: 0 <= k < |rows| ==> r[k] == OrderOf(rows[k], route)
  {
    seq(|rows|, k requires 0 <= k < |rows| => OrderOf(rows[k], route))
  }

  /** Nondecreasing in the order column. */
  predicate SortedBy(s: seq<EdgeRow>, route: seq<NodeId>) {
    forall i, j :: 0 <= i < j < |s| ==> Rank(s[i], route) <= Rank(s[j], route)
  }

  /** Insertion of one row into a sorted table, after every row of the same rank (so sorting by insertion is stable). */
  function InsertByOrder(x: EdgeRow, s: seq<EdgeRow>, route: seq<NodeId>): (r: seq<EdgeRow>)
    requires SortedBy(s, route)
    ensures SortedBy(r, route)
    ensures multiset(r) == multiset(s) + multiset{x}
    ensures forall y :: y in r ==> y == x || y in s
  {
    if |s| == 0 then [x]
    else if Rank(x, route) < Rank(s[0], route) then [x] + s
    else
      var rest := InsertByOrder(x, s[1..], route);
      assert s == [s[0]] + s[1..];
      HeadBoundsInsert(x, s, rest, route);
      SortedCons(s[0], rest, route);
      [s[0]] + rest
  }

  /** The head of a sorted table ranks no higher than the rest of it with a row of no lower rank inserted. */
  lemma HeadBoundsInsert(x: EdgeRow, s: seq<EdgeRow>, rest: seq<EdgeRow>, route: seq<NodeId>)
    requires |s| > 0 && SortedBy(s, route) && Rank(s[0], route) <= Rank(x, route)
    requires forall y :: y in rest ==> y == x || y in s[1..]
    ensures forall y :: y in rest ==> Rank(s[0], route) <= Rank(y, route)
  {
    forall y | y in rest ensures Rank(s[0], route) <= Rank(y, route) {
      if y != x {
        var j :| 0 <= j < |s[1..]| && s[1..][j] == y;
        assert s[j + 1] == y;
      }
    }
  }

  /** A row that ranks no higher than any row of a sorted table can go in front of it. */
  lemma SortedCons(h: EdgeRow, t: seq<EdgeRow>, route: seq<NodeId>)
    requires SortedBy(t, route) && forall y :: y in t ==> Rank(h, route) <= Rank(y, route)
    ensures SortedBy([h] + t, route)
  {
    var r := [h] + t;
    forall i, j | 0 <= i < j < |r| ensures Rank(r[i], route) <= Rank(r[j], route) {
      assert r[j] == t[j - 1];
      if 0 < i { assert r[i] == t[i - 1]; }
    }
  }

  /** The table sorted by the order column (the tie order of `sort_values` is left open by the ensures of its caller). */
  function SortByOrder(s: seq<EdgeRow>, route: seq<NodeId>): (r: seq<EdgeRow>)
    ensures SortedBy(r, route)
    ensures multiset(r) == multiset(s)
  {
    if |s| == 0 then []
    else
      var n := |s| - 1;
      assert s == s[..n] + [s[n]];
      InsertByOrder(s[n], SortByOrder(s[..n], route), route)
  }

  /** Two rows of equal order keep their table order. */
  lemma SortByOrderKeepsTies(a: EdgeRow, b: EdgeRow, route: seq<NodeId>)
    requires Rank(a, route) == Rank(b, route)
    ensures SortByOrder([a, b], route) == [a, b]
  {
    assert [a, b][..1] == [a];
    assert [a][..0] == [];
  }

  /**
   * get_sorted_route_df: for each route position in turn, the rows leaving that node,
   * but not back to the node before it, take the position as their order (a later
   * position overwrites an earlier one); rows without an order are dropped and the rest
   * sorted by it. With an empty route the order column is never created and the filter
   * fails on the missing column.
   */
  method GetSortedRouteRows(rows: seq<EdgeRow>, route: seq<NodeId>) returns (r: Result<seq<EdgeRow>>)
    ensures r.Failure? <==> |route| == 0
    ensures r.Failure? ==> r.error == ColumnError("order")
    ensures r.Success? ==> multiset(r.value) == multiset(Filter(rows, OrderColumn(rows, route)))
    ensures r.Success? ==> forall x :: x in r.value ==> OrderOf(x, route).Some?
    ensures r.Success? ==> SortedBy(r.value, route)
  {
    var order := MarkOrders(rows, route);
    if |route| == 0 {
      return Failure(ColumnError("order"));
    }
    var kept := Filter(rows, order);
    var sorted := SortByOrder(kept, route);
    forall x | x in sorted ensures OrderOf(x, route).Some? {
      assert x in multiset(sorted);
      assert x in kept;
      var k :| 0 <= k < |rows| && rows[k] == x && order[k].Some?;
    }
    return Success(sorted);
  }

  /** The loop of get_sorted_route_df that fills the order column, one route position per pass. */
  method MarkOrders(rows: seq<EdgeRow>, route: seq<NodeId>) returns (order: seq<Option<nat>>)
    ensures order == OrderColumn(rows, route)
  {
    order := seq(|rows|, k => None);
    var previous: Option<NodeId> := None;
    for index := 0 to |route|
      invariant |order| == |rows|
      invariant forall k :: 0 <= k < |rows| ==> order[k] == LastQualifying(rows[k], route, index)
      invariant previous == if index == 0 then None else Some(route[index - 1])
    {
      var node := route[index];
      order := seq(|rows|, k requires 0 <= k < |rows| && |order| == |rows| =>
                 if rows[k].u == node && previous != Some(rows[k].v) then Some(index) else order[k]);
      previous := Some(node);
    }
  }

  /** A row is kept exactly when some route position marks it. */
  lemma OrderSetIff(row: EdgeRow, route: seq<NodeId>)
    ensures OrderOf(row, route).Some? <==> exists i :: 0 <= i < |route| && Qualifies(row, route, i)
  {
  }

  /**
   * On a route without a repeated node, the row of the edge from position `i` to
   * position `i + 1` gets order `i`: the sort puts the route's edges in route order.
   */
  lemma RouteEdgeOrder(row: EdgeRow, route: seq<NodeId>, i: int)
    requires Distinct(route) && 0 <= i < |route| - 1
    requires row.u == route[i] && row.v == route[i + 1]
    ensures OrderOf(row, route) == Some(i)
  {
    assert Qualifies(row, route, i);
    forall j | i < j < |route| ensures !Qualifies(row, route, j) {
      assert route[j] != route[i];
    }
  }
}
