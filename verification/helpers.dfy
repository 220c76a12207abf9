/** Sequence helpers and route formatting (helpers/helpers.py). */
module Helpers {
  import opened Wrappers
  import opened Edges
  import opened RouteModels

  /** No element occurs twice. */
  predicate Distinct<T(==)>(s: seq<T>) {
    forall i, j :: 0 <= i < j < |s| ==> s[i] != s[j]
  }

  /** The elements of `s`, in the order of the positions listed in `idx`. */
  function Pick<T>(s: seq<T>, idx: seq<nat>): (r: seq<T>)
    requires forall k :: 0 <= k < |idx| ==> idx[k] < |s|
    ensures |r| == |idx| && forall k :: 0 <= k < |idx| ==> r[k] == s[idx[k]]
  {
    seq(|idx|, k requires 0 <= k < |idx| => s[idx[k]])
  }

  /** `s` read back to front (the slice `s[::-1]`). */
  function Reverse<T>(s: seq<T>): (r: seq<T>)
    ensures |r| == |s| && forall k :: 0 <= k < |s| ==> r[k] == s[|s| - 1 - k]
  {
    seq(|s|, k requires 0 <= k < |s| => s[|s| - 1 - k])
  }

  /**
   * `remove_duplicates`: the comprehension keeps an element when the `seen` set
   * does not hold it yet. Written over the prefix already scanned, the result for
   * `s` is the result for all but the last element, extended by the last element
   * when that element is new.
   */
  function RemoveDuplicates<T(==)>(s: seq<T>): (r: seq<T>)
    ensures Distinct(r)
    ensures forall i :: 0 <= i < |s| ==> s[i] in r
    ensures forall i :: 0 <= i < |r| ==> r[i] in s
    ensures |r| <= |s|
  {
    if |s| == 0 then []
    else
      var init := RemoveDuplicates(s[..|s| - 1]);
      if s[|s| - 1] in s[..|s| - 1] then init else init + [s[|s| - 1]]
  }

  /** Removing duplicates keeps exactly the elements of `s`. */
  lemma RemoveDuplicatesMembers<T>(s: seq<T>)
    ensures forall x :: x in RemoveDuplicates(s) <==> x in s
  {
    var r := RemoveDuplicates(s);
    forall x | x in s ensures x in r {
      var i :| 0 <= i < |s| && s[i] == x;
    }
    forall x | x in r ensures x in s {
      var i :| 0 <= i < |r| && r[i] == x;
    }
  }

  /** `s[i]` does not occur before position `i`. */
  predicate NewAt<T(==)>(s: seq<T>, i: nat)
    requires i < |s|
  {
    forall j :: 0 <= j < i ==> s[j] != s[i]
  }

  /**
   * `get_first_occurrence_indexes`, as a function: the positions `i` at which
   * `s[i]` does not occur in `s[..i]`, in increasing order.
   */
  function FirstOccurrences<T(==)>(s: seq<T>): (r: seq<nat>)
    ensures forall k :: 0 <= k < |r| ==> r[k] < |s| && NewAt(s, r[k])
    ensures forall i :: 0 <= i < |s| && NewAt(s, i) ==> i in r
    ensures forall k, l :: 0 <= k < l < |r| ==> r[k] < r[l]
  {
    if |s| == 0 then []
    else
      var n := |s| - 1;
      var init := FirstOccurrences(s[..n]);
      assert forall i :: 0 <= i < n ==> (NewAt(s[..n], i) <==> NewAt(s, i));
      if s[n] in s[..n] then init else init + [n]
  }

  /** Extending the scanned prefix by one position adds that position when its value is new. */
  lemma FirstOccurrencesStep<T>(s: seq<T>, index: nat)
    requires index < |s|
    ensures FirstOccurrences(s[..index + 1])
      == if s[index] in s[..index] then FirstOccurrences(s[..index]) else FirstOccurrences(s[..index]) + [index]
  {
    assert s[..index + 1][..index] == s[..index];
  }

  /** One pass of the loop keeps `seen` and `indexes` in step with the scanned prefix. */
  lemma OccurrenceStep<T>(s: seq<T>, index: nat, seen0: set<T>, indexes0: seq<nat>, seen: set<T>, indexes: seq<nat>)
    requires index < |s| && seen0 == Elems(s[..index]) && indexes0 == FirstOccurrences(s[..index])
    requires seen == if s[index] in seen0 then seen0 else seen0 + {s[index]}
    requires indexes == if s[index] in seen0 then indexes0 else indexes0 + [index]
    ensures seen == Elems(s[..index + 1]) && indexes == FirstOccurrences(s[..index + 1])
  {
    FirstOccurrencesStep(s, index);
    ElemsStep(s, index);
  }

  /**
   * `get_first_occurrence_indexes`: a loop that records every index whose value
   * is not yet in the `seen` set, and adds the value to it.
   */
  method GetFirstOccurrenceIndexes<T(==)>(s: seq<T>) returns (indexes: seq<nat>)
    ensures indexes == FirstOccurrences(s)
  {
    var seen: set<T> := {};
    indexes := [];
    for index := 0 to |s|
      invariant seen == Elems(s[..index])
      invariant indexes == FirstOccurrences(s[..index])
    {
      var x := s[index];
      ghost var seen0, indexes0 := seen, indexes;
      if x !in seen {
        indexes := indexes + [index];
        seen := seen + {x};
      }
      OccurrenceStep(s, index, seen0, indexes0, seen, indexes);
    }
    assert s[..|s|] == s;
  }

  /** The set of the elements of `s`. */
  function Elems<T(==)>(s: seq<T>): set<T> {
    set x | x in s
  }

  /** Scanning one more position adds its value to the set of values seen. */
  lemma ElemsStep<T>(s: seq<T>, index: nat)
    requires index < |s|
    ensures s[index] in Elems(s[..index]) <==> s[index] in s[..index]
    ensures Elems(s[..index + 1]) == Elems(s[..index]) + {s[index]}
    ensures s[index] in s[..index] ==> Elems(s[..index + 1]) == Elems(s[..index])
  {
    assert s[..index + 1] == s[..index] + [s[index]];
  }

  /** A duplicate-free sequence has as many elements as its set. */
  lemma {:induction false} DistinctCard<T>(s: seq<T>)
    requires Distinct(s)
    ensures |Elems(s)| == |s|
  {
    if |s| > 0 {
      var n := |s| - 1;
      DistinctCard(s[..n]);
      assert Elems(s) == Elems(s[..n]) + {s[n]};
      assert s[n] !in Elems(s[..n]);
    }
  }

  /** Deduplication leaves a duplicate-free sequence as it is. */
  lemma {:induction false} RemoveDuplicatesOfDistinct<T>(s: seq<T>)
    requires Distinct(s)
    ensures RemoveDuplicates(s) == s
  {
    if |s| > 0 {
      var n := |s| - 1;
      RemoveDuplicatesOfDistinct(s[..n]);
      assert s[n] !in s[..n];
      assert s[..n] + [s[n]] == s;
    }
  }

  /** `remove_duplicates` is idempotent. */
  lemma RemoveDuplicatesIdempotent<T>(s: seq<T>)
    ensures RemoveDuplicates(RemoveDuplicates(s)) == RemoveDuplicates(s)
  {
    RemoveDuplicatesOfDistinct(RemoveDuplicates(s));
  }

  /**
   * The output of `remove_duplicates` is the subsequence of first occurrences:
   * reading `s` at the indexes of `get_first_occurrence_indexes` gives it.
   */
  lemma {:induction false} PickFirstOccurrences<T>(s: seq<T>)
    ensures Pick(s, FirstOccurrences(s)) == RemoveDuplicates(s)
    ensures |FirstOccurrences(s)| == |RemoveDuplicates(s)|
  {
    if |s| > 0 {
      var n := |s| - 1;
      var init := FirstOccurrences(s[..n]);
      PickFirstOccurrences(s[..n]);
      assert Pick(s, init) == Pick(s[..n], init);
    }
  }

  /** Two sequences with the same elements have the same number of distinct elements. */
  lemma DistinctCountOfSameElements<T>(a: seq<T>, b: seq<T>)
    requires forall i :: 0 <= i < |a| ==> a[i] in b
    requires forall i :: 0 <= i < |b| ==> b[i] in a
    ensures |RemoveDuplicates(a)| == |RemoveDuplicates(b)|
  {
    var ra, rb := RemoveDuplicates(a), RemoveDuplicates(b);
    DistinctCard(ra);
    DistinctCard(rb);
    assert Elems(ra) == Elems(rb) by {
      forall x | x in Elems(ra) ensures x in Elems(rb) {
        var i :| 0 <= i < |ra| && ra[i] == x;
        var j :| 0 <= j < |a| && a[j] == x;
        var l :| 0 <= l < |b| && b[l] == x;
        assert b[l] in rb;
      }
      forall x | x in Elems(rb) ensures x in Elems(ra) {
        var i :| 0 <= i < |rb| && rb[i] == x;
        var j :| 0 <= j < |b| && b[j] == x;
        var l :| 0 <= l < |a| && a[l] == x;
        assert a[l] in ra;
      }
    }
  }

  /** Reversal changes the order, not the number of distinct elements. */
  lemma DistinctCountOfReverse<T>(s: seq<T>)
    ensures |RemoveDuplicates(Reverse(s))| == |RemoveDuplicates(s)|
  {
    var r := Reverse(s);
    forall i | 0 <= i < |s| ensures s[i] in r {
      assert r[|s| - 1 - i] == s[i];
    }
    DistinctCountOfSameElements(r, s);
  }

  // ---------------------------------------------------------------------------
  // generate_formatted_route (helpers.py:40-81)
  // ---------------------------------------------------------------------------

  /** The `lat` and `lon` columns of a row of the route-node table. */
  datatype Position = Position(lat: real, lon: real)

  /**
   * The way of a route-edge row: NaN name and highway cells become the empty string
   * (`fillna("")`) and the length is converted from metres to kilometres.
   */
  function WayOf(row: EdgeRow): Way {
    Way(osmid := row.osmid,
        name := if row.name.None? then One("") else row.name.value,
        highway := if row.highway.None? then One("") else row.highway.value,
        length := row.length / 1000.0)
  }

  /** How many segments the loop over `route[:-2]` emits. */
  function SegmentCount(route: seq<NodeId>): nat {
    if |route| >= 2 then |route| - 2 else 0
  }

  /**
   * The segment of loop pass `k`, or the error of its first failing lookup: the node
   * table at `route[k]` and at `route[k + 1]`, the edge row at position `k`, the
   * window at index `k`. The contract pins the lookup order and the fields one by one;
   * what it means for a whole route is stated by FormattedSuccessIff and
   * FormattedRouteShape.
   */
  function SegmentAt(route: seq<NodeId>, rows: seq<EdgeRow>, positions: map<NodeId, Position>,
                     windows: map<int, Window>, halfway: (Timestamp, Timestamp) -> Timestamp, k: nat): (r: Result<Segment>)
    requires k + 1 < |route|
    ensures r.Success? <==> route[k] in positions && route[k + 1] in positions && k < |rows| && k in windows
    ensures route[k] !in positions ==> r == Failure(KeyError(route[k]))
    ensures route[k] in positions && route[k + 1] !in positions ==> r == Failure(KeyError(route[k + 1]))
    ensures route[k] in positions && route[k + 1] in positions && k >= |rows| ==> r == Failure(IndexError)
    ensures route[k] in positions && route[k + 1] in positions && k < |rows| && k !in windows ==> r == Failure(KeyError(k))
    ensures r.Success? ==>
              && r.value.start == Node(route[k], positions[route[k]].lat, positions[route[k]].lon)
              && r.value.end == Node(route[k + 1], positions[route[k + 1]].lat, positions[route[k + 1]].lon)
              && r.value.way == WayOf(rows[k])
              && r.value.time == Some(halfway(windows[k].0, windows[k].1))
              && r.value.price == 0.0
  {
    var node, next := route[k], route[k + 1];
    if node !in positions then Failure(KeyError(node))
    else if next !in positions then Failure(KeyError(next))
    else if k >= |rows| then Failure(IndexError)
    else if k !in windows then Failure(KeyError(k))
    else
      var start, end := windows[k].0, windows[k].1;
      Success(Segment(
        start := Node(node, positions[node].lat, positions[node].lon),
        way := WayOf(rows[k]),
        end := Node(next, positions[next].lat, positions[next].lon),
        time := Some(halfway(start, end))))
  }

  /** The segments of the first `n` loop passes, or the error of the first pass that fails. */
  function FormattedUpTo(route: seq<NodeId>, rows: seq<EdgeRow>, positions: map<NodeId, Position>,
                         windows: map<int, Window>, halfway: (Timestamp, Timestamp) -> Timestamp, n: nat): (r: Result<seq<Segment>>)
    requires n <= SegmentCount(route)
    ensures r.Success? <==> forall k :: 0 <= k < n ==> SegmentAt(route, rows, positions, windows, halfway, k).Success?
    ensures r.Success? ==> |r.value| == n
    ensures r.Success? ==> forall k :: 0 <= k < n ==> r.value[k] == SegmentAt(route, rows, positions, windows, halfway, k).value
  {
    if n == 0 then Success([])
    else match FormattedUpTo(route, rows, positions, windows, halfway, n - 1)
      case Failure(e) => Failure(e)
      case Success(segs) =>
        match SegmentAt(route, rows, positions, windows, halfway, n - 1)
        case Failure(e) => Failure(e)
        case Success(seg) => Success(segs + [seg])
  }

  /** Once a pass fails, the remaining passes do not run and the error stays. */
  lemma {:induction false} FormattedFailureStays(route: seq<NodeId>, rows: seq<EdgeRow>, positions: map<NodeId, Position>,
                                                 windows: map<int, Window>, halfway: (Timestamp, Timestamp) -> Timestamp, n: nat, n': nat)
    requires n <= n' <= SegmentCount(route)
    requires FormattedUpTo(route, rows, positions, windows, halfway, n).Failure?
    ensures FormattedUpTo(route, rows, positions, windows, halfway, n') == FormattedUpTo(route, rows, positions, windows, halfway, n)
    decreases n' - n
  {
    if n < n' {
      FormattedFailureStays(route, rows, positions, windows, halfway, n, n' - 1);
    }
  }

  /**
   * generate_formatted_route: a new route with the given id, then one segment per node
   * of `route[:-2]`, from that node to the next, with the way of the edge row at the
   * same position and the halfway time of the window at the same index.
   */
  method GenerateFormattedRoute(route: seq<NodeId>, rows: seq<EdgeRow>, positions: map<NodeId, Position>,
                                windows: map<int, Window>, halfway: (Timestamp, Timestamp) -> Timestamp, id: Uuid)
    returns (r: Result<Route>)
    ensures var spec := FormattedUpTo(route, rows, positions, windows, halfway, SegmentCount(route));
            && (r.Success? <==> spec.Success?)
            && (r.Failure? ==> r.error == spec.error)
            && (r.Success? ==> fresh(r.value) && r.value.routeId == id && r.value.priceTotal == 0.0
                               && r.value.segments == spec.value)
  {
    var out := new Route(id);
    var count := SegmentCount(route);
    for index := 0 to count
      invariant fresh(out) && out.routeId == id && out.priceTotal == 0.0
      invariant FormattedUpTo(route, rows, positions, windows, halfway, index) == Success(out.segments)
    {
      var node, next := route[index], route[index + 1];
      var e: Error;
      if node !in positions {
        e := KeyError(node);
      } else if next !in positions {
        e := KeyError(next);
      } else if index >= |rows| {
        e := IndexError;
      } else if index !in windows {
        e := KeyError(index);
      } else {
        var start, end := windows[index].0, windows[index].1;
        out.AddSegment(Segment(
          start := Node(node, positions[node].lat, positions[node].lon),
          way := WayOf(rows[index]),
          end := Node(next, positions[next].lat, positions[next].lon),
          time := Some(halfway(start, end))));
        continue;
      }
      FormattedFailureStays(route, rows, positions, windows, halfway, index + 1, count);
      return Failure(e);
    }
    return Success(out);
  }

  /**
   * A route of `n` nodes yields `n - 2` segments (none for fewer than two nodes); each
   * segment ends at the node the next one starts at.
   */
  lemma FormattedRouteShape(route: seq<NodeId>, rows: seq<EdgeRow>, positions: map<NodeId, Position>,
                            windows: map<int, Window>, halfway: (Timestamp, Timestamp) -> Timestamp)
    requires FormattedUpTo(route, rows, positions, windows, halfway, SegmentCount(route)).Success?
    ensures var segs := FormattedUpTo(route, rows, positions, windows, halfway, SegmentCount(route)).value;
            && (|route| >= 2 ==> |segs| == |route| - 2)
            && (|route| < 2 ==> segs == [])
            && (forall k :: 0 <= k < |segs| ==> segs[k].start.osmid == route[k] && segs[k].end.osmid == route[k + 1])
            && (forall k :: 0 <= k < |segs| - 1 ==> segs[k].end == segs[k + 1].start)
  {
    var segs := FormattedUpTo(route, rows, positions, windows, halfway, SegmentCount(route)).value;
    forall k | 0 <= k < |segs| - 1 ensures segs[k].end == segs[k + 1].start {
      assert segs[k] == SegmentAt(route, rows, positions, windows, halfway, k).value;
      assert segs[k + 1] == SegmentAt(route, rows, positions, windows, halfway, k + 1).value;
    }
  }

  /**
   * Every lookup of the loop finds its entry: an edge row and a window for each pass,
   * and a node-table row for each node the passes visit.
   */
  predicate LookupsFound(route: seq<NodeId>, rows: seq<EdgeRow>, positions: map<NodeId, Position>, windows: map<int, Window>) {
    && SegmentCount(route) <= |rows|
    && (forall k :: 0 <= k < SegmentCount(route) ==> k in windows)
    && (forall k :: 0 <= k <= SegmentCount(route) && 0 < SegmentCount(route) ==> route[k] in positions)
  }

  /** The loop succeeds exactly when every lookup of every pass finds its entry. */
  lemma FormattedSuccessIff(route: seq<NodeId>, rows: seq<EdgeRow>, positions: map<NodeId, Position>,
                            windows: map<int, Window>, halfway: (Timestamp, Timestamp) -> Timestamp)
    ensures FormattedUpTo(route, rows, positions, windows, halfway, SegmentCount(route)).Success?
            <==> LookupsFound(route, rows, positions, windows)
  {
    var n := SegmentCount(route);
    if FormattedUpTo(route, rows, positions, windows, halfway, n).Success? && n > 0 {
      assert SegmentAt(route, rows, positions, windows, halfway, n - 1).Success?;
      forall k | 0 <= k < n ensures k in windows && route[k] in positions {
        assert SegmentAt(route, rows, positions, windows, halfway, k).Success?;
      }
    }
    if LookupsFound(route, rows, positions, windows) {
      forall k | 0 <= k < n ensures SegmentAt(route, rows, positions, windows, halfway, k).Success? {
        assert route[k] in positions && route[k + 1] in positions;
      }
    }
  }

  // ---------------------------------------------------------------------------
  // remove_way_id_lists (helpers.py:84-96)
  // ---------------------------------------------------------------------------

  /**
   * The update of one segment: a list of way ids becomes its first element; an empty
   * list is an index error. Nothing else of the segment changes.
   */
  function CollapseWayId(s: Segment): (r: Result<Segment>)
    ensures r.Failure? <==> s.way.osmid == Many([])
    ensures r.Failure? ==> r.error == IndexError
    ensures r.Success? ==> r.value.way.osmid.One? && r.value == s.(way := s.way.(osmid := r.value.way.osmid))
    ensures r.Success? && s.way.osmid.One? ==> r.value == s
    ensures r.Success? && s.way.osmid.Many? ==> r.value.way.osmid.item == s.way.osmid.items[0]
  {
    match s.way.osmid
    case One(_) => Success(s)
    case Many(items) =>
      if |items| == 0 then Failure(IndexError)
      else Success(s.(way := s.way.(osmid := One(items[0]))))
  }

  /** The position of the first segment whose way id is an empty list, if any. */
  function FirstEmptyIdList(segs: seq<Segment>): (r: Option<nat>)
    ensures r.None? <==> forall i :: 0 <= i < |segs| ==> segs[i].way.osmid != Many([])
    ensures r.Some? ==> r.value < |segs| && segs[r.value].way.osmid == Many([])
    ensures r.Some? ==> forall i :: 0 <= i < r.value ==> segs[i].way.osmid != Many([])
  {
    if |segs| == 0 then None
    else if segs[0].way.osmid == Many([]) then Some(0)
    else match FirstEmptyIdList(segs[1..])
      case None => None
      case Some(i) => Some(i + 1)
  }

  /** `segs` with the first `n` segments collapsed and the rest as they were. */
  function CollapsedUpTo(segs: seq<Segment>, n: nat): (r: seq<Segment>)
    requires n <= |segs| && forall i :: 0 <= i < n ==> segs[i].way.osmid != Many([])
    ensures |r| == |segs|
    ensures forall i :: 0 <= i < |segs| ==> r[i] == if i < n then CollapseWayId(segs[i]).value else segs[i]
  {
    seq(|segs|, i requires 0 <= i < |segs| => if i < n then CollapseWayId(segs[i]).value else segs[i])
  }

  /**
   * remove_way_id_lists: each segment in turn gets its first way id in place of a
   * list. An empty list raises after the segments before it have been updated.
   * The route's id and total price are untouched.
   */
  method RemoveWayIdLists(route: Route) returns (r: Result<Route>)
    modifies route
    ensures route.routeId == old(route.routeId) && route.priceTotal == old(route.priceTotal)
    ensures r.Failure? <==> FirstEmptyIdList(old(route.segments)).Some?
    ensures r.Success? ==> r.value == route && route.segments == CollapsedUpTo(old(route.segments), |old(route.segments)|)
    ensures r.Failure? ==> r.error == IndexError
    ensures r.Failure? ==> route.segments == CollapsedUpTo(old(route.segments), FirstEmptyIdList(old(route.segments)).value)
  {
    ghost var segs := route.segments;
    for i := 0 to |route.segments|
      invariant |route.segments| == |segs|
      invariant route.routeId == old(route.routeId) && route.priceTotal == old(route.priceTotal)
      invariant forall j :: 0 <= j < i ==> segs[j].way.osmid != Many([])
      invariant route.segments == CollapsedUpTo(segs, i)
    {
      var seg := route.segments[i];
      if seg.way.osmid.Many? {
        if |seg.way.osmid.items| == 0 {
          return Failure(IndexError);
        }
        route.segments := route.segments[i := seg.(way := seg.way.(osmid := One(seg.way.osmid.items[0])))];
      }
    }
    return Success(route);
  }

  /** Collapsing collapsed segments changes nothing: a second call is a no-op. */
  lemma CollapseIdempotent(segs: seq<Segment>)
    requires FirstEmptyIdList(segs).None?
    ensures var once := CollapsedUpTo(segs, |segs|);
            FirstEmptyIdList(once).None? && CollapsedUpTo(once, |once|) == once
  {
    var once := CollapsedUpTo(segs, |segs|);
    assert forall i :: 0 <= i < |once| ==> once[i].way.osmid.One?;
  }
}
