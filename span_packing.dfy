/**
 * Span rendering and lane packing: which events are drawn as horizontal
 * bars, and the greedy first-fit assignment of bars to lanes so that bars
 * sharing a lane never overlap.
 */
module SpanPacking {
  import opened Events

  function Abs(x: int): int { if x < 0 then -x else x }

  function RealMin(a: real, b: real): real { if a <= b then a else b }

  /** An event is a span when both its years are known, it lasts a nonzero
      time, and it lasts at least the threshold: by default the smaller of
      0.1% of the visible range and 1000 years. */
  function ShouldRenderAsSpan(e: Event, timeRange: int, minDurationThreshold: Option<real>): (r: bool)
    ensures r <==>
      && e.startYear.Some? && e.endYear.Some?
      && var d := Abs(e.endYear.value - e.startYear.value);
      && d != 0
      && (minDurationThreshold.None? ==> 1000 * d >= timeRange || d >= 1000)
      && (minDurationThreshold.Some? ==> d as real >= minDurationThreshold.value)
  {
    if e.startYear.None? || e.endYear.None? then false
    else
      var duration := Abs(e.endYear.value - e.startYear.value);
      if duration == 0 then false
      else
        var threshold :=
          if minDurationThreshold.None? then RealMin(timeRange as real * 0.001, 1000.0)
          else minDurationThreshold.value;
        duration as real >= threshold
  }

  // ---------------------------------------------------------------------
  // Processing order
  // ---------------------------------------------------------------------

  datatype Interval = Interval(start: int, end: int)

  /** `sorted(enumerate(intervals), key=(start, end - start))`: Python's sort
      is stable, so ties fall back to the original position. */
  predicate Before(a: Interval, p: nat, b: Interval, q: nat) {
    a.start < b.start
    || (a.start == b.start
        && (a.end - a.start < b.end - b.start
            || (a.end - a.start == b.end - b.start && p < q)))
  }

  ghost predicate ValidOrder(iv: seq<Interval>, order: seq<nat>) {
    forall u :: 0 <= u < |order| ==> order[u] < |iv|
  }

  ghost predicate SortedPositions(iv: seq<Interval>, s: seq<nat>) {
    && ValidOrder(iv, s)
    && forall i, j :: 0 <= i < j < |s| ==> Before(iv[s[i]], s[i], iv[s[j]], s[j])
  }

  function Insert(iv: seq<Interval>, p: nat, s: seq<nat>): (r: seq<nat>)
    requires p < |iv| && p !in s && SortedPositions(iv, s)
    ensures |r| == |s| + 1
    ensures forall x :: x in r <==> x == p || x in s
    ensures SortedPositions(iv, r)
  {
    if s == [] then [p]
    else if Before(iv[p], p, iv[s[0]], s[0]) then [p] + s
    else
      var rest := Insert(iv, p, s[1..]);
      assert forall j :: 0 <= j < |rest| ==> Before(iv[s[0]], s[0], iv[rest[j]], rest[j]) by {
        forall j | 0 <= j < |rest| ensures Before(iv[s[0]], s[0], iv[rest[j]], rest[j]) {
          assert rest[j] in rest;
          if rest[j] != p {
            assert rest[j] in s[1..];
            var k :| 0 <= k < |s| - 1 && s[1..][k] == rest[j];
            assert s[k + 1] == rest[j];
          }
        }
      }
      [s[0]] + rest
  }

  /** The first `n` positions in processing order. */
  function SortFirst(iv: seq<Interval>, n: nat): (r: seq<nat>)
    requires n <= |iv|
    ensures |r| == n
    ensures forall x :: x in r <==> 0 <= x < n
    ensures SortedPositions(iv, r)
  {
    if n == 0 then [] else Insert(iv, n - 1, SortFirst(iv, n - 1))
  }

  /** Every position once, in the order `pack_intervals` visits them. */
  function ProcessingOrder(iv: seq<Interval>): (order: seq<nat>)
    ensures |order| == |iv|
    ensures forall p :: p in order <==> 0 <= p < |iv|
    ensures SortedPositions(iv, order)
  {
    SortFirst(iv, |iv|)
  }

  lemma SortedDistinct(iv: seq<Interval>, s: seq<nat>)
    requires SortedPositions(iv, s)
    ensures forall i, j :: 0 <= i < |s| && 0 <= j < |s| && i != j ==> s[i] != s[j]
  {
  }

  // ---------------------------------------------------------------------
  // Greedy lane assignment
  // ---------------------------------------------------------------------

  /** The lowest lane whose last bar ends no later than `start`, or a new
      lane past the end when none is free. */
  function FirstFree(ends: seq<int>, start: int): (lane: nat)
    ensures lane <= |ends|
    ensures lane < |ends| ==> ends[lane] <= start
    ensures forall l :: 0 <= l < lane ==> ends[l] > start
  {
    if ends == [] then 0
    else if ends[0] <= start then 0
    else 1 + FirstFree(ends[1..], start)
  }

  /** `lane_ends` and `lane_assignments`, with the lane each step took
      (`history[u]` for the `u`-th interval processed). */
  datatype Lanes = Lanes(laneEnds: seq<int>, assign: map<nat, nat>, history: seq<nat>)

  /** One iteration of the outer loop: interval `p` takes the first free
      lane, or opens a new one. */
  function Place(st: Lanes, p: nat, x: Interval): Lanes {
    var lane := FirstFree(st.laneEnds, x.start);
    Lanes(
      if lane < |st.laneEnds| then st.laneEnds[lane := x.end] else st.laneEnds + [x.end],
      st.assign[p := lane],
      st.history + [lane])
  }

  /** The state after the first `t` intervals of `order`. */
  function Run(iv: seq<Interval>, order: seq<nat>, t: nat): (st: Lanes)
    requires ValidOrder(iv, order) && t <= |order|
    ensures |st.history| == t
  {
    if t == 0 then Lanes([], map[], [])
    else Place(Run(iv, order, t - 1), order[t - 1], iv[order[t - 1]])
  }

  /** `pack_intervals`: position to lane. */
  function PackResult(iv: seq<Interval>): map<nat, nat> {
    Run(iv, ProcessingOrder(iv), |iv|).assign
  }

  method PackIntervals(intervals: seq<Interval>) returns (laneAssignments: map<nat, nat>)
    ensures laneAssignments == PackResult(intervals)
    ensures intervals == [] ==> laneAssignments == map[]
  {
    if |intervals| == 0 {
      return map[];
    }
    var order := ProcessingOrder(intervals);
    var laneEnds: seq<int> := [];
    laneAssignments := map[];
    for t := 0 to |order|
      invariant laneEnds == Run(intervals, order, t).laneEnds
      invariant laneAssignments == Run(intervals, order, t).assign
    {
      var origIdx := order[t];
      var lane;
      laneEnds, lane := TakeLane(laneEnds, intervals[origIdx]);
      laneAssignments := laneAssignments[origIdx := lane];
    }
  }

  /** The inner loop: scan `lane_ends` for the first lane free at the
      interval's start and record its end there, or open a new lane. */
  method TakeLane(laneEnds: seq<int>, x: Interval) returns (newEnds: seq<int>, lane: nat)
    ensures lane == FirstFree(laneEnds, x.start)
    ensures lane <= |laneEnds|
    ensures lane < |laneEnds| ==> newEnds == laneEnds[lane := x.end]
    ensures lane == |laneEnds| ==> newEnds == laneEnds + [x.end]
  {
    newEnds := laneEnds;
    var assignedLane: Option<nat> := None;
    var laneIdx := 0;
    while laneIdx < |newEnds|
      invariant 0 <= laneIdx <= |newEnds| && newEnds == laneEnds
      invariant forall l :: 0 <= l < laneIdx ==> newEnds[l] > x.start
      invariant assignedLane.None?
    {
      if newEnds[laneIdx] <= x.start {
        assignedLane := Some(laneIdx);
        newEnds := newEnds[laneIdx := x.end];
        break;
      }
      laneIdx := laneIdx + 1;
    }
    if assignedLane.None? {
      assignedLane := Some(|newEnds|);
      newEnds := newEnds + [x.end];
    }
    lane := assignedLane.value;
  }

  // ---------------------------------------------------------------------
  // What the greedy run keeps true
  // ---------------------------------------------------------------------

  /** Every interval ends no earlier than it starts. */
  ghost predicate WellFormed(iv: seq<Interval>) {
    forall i :: 0 <= i < |iv| ==> iv[i].start <= iv[i].end
  }

  /** A step's lane is the first lane free when it was processed. */
  lemma {:induction false} RunHistory(iv: seq<Interval>, order: seq<nat>, t: nat, u: nat)
    requires ValidOrder(iv, order) && u < t <= |order|
    ensures Run(iv, order, t).history[u] == FirstFree(Run(iv, order, u).laneEnds, iv[order[u]].start)
  {
    if u < t - 1 {
      RunHistory(iv, order, t - 1, u);
    }
  }

  /** After `t` steps exactly the first `t` positions of `order` have a lane. */
  lemma {:induction false} RunKeys(iv: seq<Interval>, order: seq<nat>, t: nat)
    requires ValidOrder(iv, order) && t <= |order|
    ensures forall p :: p in Run(iv, order, t).assign <==> p in order[..t]
  {
    if t > 0 {
      RunKeys(iv, order, t - 1);
      assert order[..t] == order[..t - 1] + [order[t - 1]];
    }
  }

  /** Each position keeps the lane it was given at its own step. */
  lemma {:induction false} RunAssigns(iv: seq<Interval>, order: seq<nat>, t: nat)
    requires ValidOrder(iv, order) && Distinct(order) && t <= |order|
    ensures forall u :: 0 <= u < t ==>
      order[u] in Run(iv, order, t).assign && Run(iv, order, t).assign[order[u]] == Run(iv, order, t).history[u]
  {
    if t > 0 {
      RunAssigns(iv, order, t - 1);
      var st := Run(iv, order, t);
      forall u | 0 <= u < t - 1 ensures order[u] != order[t - 1] {
      }
    }
  }

  /** Every lane taken so far exists. */
  lemma {:induction false} RunLanesBounded(iv: seq<Interval>, order: seq<nat>, t: nat)
    requires ValidOrder(iv, order) && t <= |order|
    ensures forall u :: 0 <= u < t ==> Run(iv, order, t).history[u] < |Run(iv, order, t).laneEnds|
  {
    if t > 0 {
      RunLanesBounded(iv, order, t - 1);
      var prev := Run(iv, order, t - 1);
      var st := Run(iv, order, t);
      assert st.history == prev.history + [st.history[t - 1]];
      assert |prev.laneEnds| <= |st.laneEnds|;
      forall u | 0 <= u < t - 1 ensures st.history[u] < |st.laneEnds| {
        assert st.history[u] == prev.history[u];
      }
    }
  }

  /** Lane `l`'s recorded end in `st` is the end of an interval that one of
      the first `t` steps placed in it. */
  ghost predicate EndWitnessed(iv: seq<Interval>, order: seq<nat>, st: Lanes, t: nat, l: nat)
    requires ValidOrder(iv, order) && t <= |order| && t <= |st.history| && l < |st.laneEnds|
  {
    exists u :: 0 <= u < t && st.history[u] == l && st.laneEnds[l] == iv[order[u]].end
  }

  lemma {:induction false} RunLaneEnds(iv: seq<Interval>, order: seq<nat>, t: nat)
    requires ValidOrder(iv, order) && t <= |order|
    ensures forall l: nat :: l < |Run(iv, order, t).laneEnds| ==> EndWitnessed(iv, order, Run(iv, order, t), t, l)
  {
    if t > 0 {
      RunLaneEnds(iv, order, t - 1);
      var prev := Run(iv, order, t - 1);
      var st := Run(iv, order, t);
      var lane := st.history[t - 1];
      assert st.history == prev.history + [lane];
      forall l: nat | l < |st.laneEnds| ensures EndWitnessed(iv, order, st, t, l) {
        if l != lane {
          assert l < |prev.laneEnds|;
          assert EndWitnessed(iv, order, prev, t - 1, l);
          var u :| 0 <= u < t - 1 && prev.history[u] == l && prev.laneEnds[l] == iv[order[u]].end;
          assert st.history[u] == l && st.laneEnds[l] == prev.laneEnds[l];
        }
      }
    }
  }

  /** With well-formed intervals a lane's recorded end is at least the end
      of every interval placed in it. */
  lemma {:induction false} RunEndsCover(iv: seq<Interval>, order: seq<nat>, t: nat)
    requires ValidOrder(iv, order) && WellFormed(iv) && t <= |order|
    ensures forall u :: 0 <= u < t ==>
      Run(iv, order, t).history[u] < |Run(iv, order, t).laneEnds|
      && iv[order[u]].end <= Run(iv, order, t).laneEnds[Run(iv, order, t).history[u]]
  {
    if t > 0 {
      RunEndsCover(iv, order, t - 1);
      RunLanesBounded(iv, order, t);
      var prev := Run(iv, order, t - 1);
      var st := Run(iv, order, t);
      var lane := st.history[t - 1];
      var x := iv[order[t - 1]];
      forall u | 0 <= u < t - 1 && st.history[u] == lane
        ensures iv[order[u]].end <= st.laneEnds[lane]
      {
        assert iv[order[u]].end <= prev.laneEnds[lane] <= x.start <= x.end;
      }
    }
  }

  /** Step form of non-overlap: an interval placed in a lane starts no
      earlier than any interval placed in that lane before it ends. */
  lemma NoOverlapSteps(iv: seq<Interval>, order: seq<nat>, u: nat, t: nat)
    requires ValidOrder(iv, order) && WellFormed(iv)
    requires u < t < |order| && Run(iv, order, |order|).history[u] == Run(iv, order, |order|).history[t]
    ensures iv[order[u]].end <= iv[order[t]].start
  {
    RunEndsCover(iv, order, t);
    RunHistory(iv, order, |order|, u);
    RunHistory(iv, order, t, u);
    RunHistory(iv, order, |order|, t);
  }

  /** Lane `l`'s recorded end in `st` is the end of the LAST interval that
      one of the first `t` steps placed in it. */
  ghost predicate EndOfLast(iv: seq<Interval>, order: seq<nat>, st: Lanes, t: nat, l: nat)
    requires ValidOrder(iv, order) && t <= |order| && t <= |st.history| && l < |st.laneEnds|
  {
    exists u :: 0 <= u < t && st.history[u] == l && st.laneEnds[l] == iv[order[u]].end
      && forall w :: u < w < t ==> st.history[w] != l
  }

  lemma {:induction false} RunLaneLast(iv: seq<Interval>, order: seq<nat>, t: nat)
    requires ValidOrder(iv, order) && t <= |order|
    ensures forall l: nat :: l < |Run(iv, order, t).laneEnds| ==> EndOfLast(iv, order, Run(iv, order, t), t, l)
  {
    if t > 0 {
      RunLaneLast(iv, order, t - 1);
      var prev := Run(iv, order, t - 1);
      var st := Run(iv, order, t);
      var lane := st.history[t - 1];
      assert st.history == prev.history + [lane];
      forall l: nat | l < |st.laneEnds| ensures EndOfLast(iv, order, st, t, l) {
        if l == lane {
          assert st.history[t - 1] == l && st.laneEnds[l] == iv[order[t - 1]].end;
        } else {
          assert l < |prev.laneEnds|;
          assert EndOfLast(iv, order, prev, t - 1, l);
          var u :| 0 <= u < t - 1 && prev.history[u] == l && prev.laneEnds[l] == iv[order[u]].end
            && forall w :: u < w < t - 1 ==> prev.history[w] != l;
          assert st.history[u] == l && st.laneEnds[l] == prev.laneEnds[l];
          forall w | u < w < t ensures st.history[w] != l {
            if w < t - 1 {
              assert st.history[w] == prev.history[w];
            }
          }
        }
      }
    }
  }

  /** Non-overlap in processing order, for any intervals, reversed ones
      included: starts never decrease along a sorted order, and a lane is
      free for an interval only when the last one placed in it ends by its
      start, so by induction every earlier interval in the lane does too. */
  lemma {:induction false} NoOverlapSorted(iv: seq<Interval>, order: seq<nat>, u: nat, t: nat)
    requires SortedPositions(iv, order)
    requires u < t < |order| && Run(iv, order, |order|).history[u] == Run(iv, order, |order|).history[t]
    ensures iv[order[u]].end <= iv[order[t]].start
    decreases t
  {
    var st := Run(iv, order, t);
    var l := Run(iv, order, |order|).history[t];
    RunHistory(iv, order, |order|, t);
    RunHistory(iv, order, |order|, u);
    RunHistory(iv, order, t, u);
    RunLanesBounded(iv, order, t);
    assert st.history[u] == l && l < |st.laneEnds|;
    RunLaneLast(iv, order, t);
    assert EndOfLast(iv, order, st, t, l);
    var u' :| 0 <= u' < t && st.history[u'] == l && st.laneEnds[l] == iv[order[u']].end
      && forall w :: u' < w < t ==> st.history[w] != l;
    if u != u' {
      assert u < u';
      RunHistory(iv, order, |order|, u');
      RunHistory(iv, order, t, u');
      NoOverlapSorted(iv, order, u, u');
      assert Before(iv[order[u']], order[u'], iv[order[t]], order[t]);
    }
  }

  /** Step form of first fit: every lower lane was busy, holding an interval
      that ends after this one starts. */
  lemma FirstFitSteps(iv: seq<Interval>, order: seq<nat>, t: nat, l: nat)
    requires ValidOrder(iv, order) && t < |order| && l < Run(iv, order, |order|).history[t]
    ensures exists u :: 0 <= u < t && Run(iv, order, |order|).history[u] == l && iv[order[u]].end > iv[order[t]].start
  {
    RunHistory(iv, order, |order|, t);
    RunLaneEnds(iv, order, t);
    var st := Run(iv, order, t);
    assert EndWitnessed(iv, order, st, t, l);
    var u :| 0 <= u < t && st.history[u] == l && st.laneEnds[l] == iv[order[u]].end;
    RunHistory(iv, order, |order|, u);
    RunHistory(iv, order, t, u);
  }

  // ---------------------------------------------------------------------
  // pack_intervals: what its result promises
  // ---------------------------------------------------------------------

  /** The number of lanes `pack_intervals` opens. */
  function LaneCount(iv: seq<Interval>): nat {
    |Run(iv, ProcessingOrder(iv), |iv|).laneEnds|
  }

  /** The step at which position `p` is processed, and the lane it gets. */
  lemma StepOf(iv: seq<Interval>, p: nat) returns (t: nat)
    requires p < |iv|
    ensures t < |iv| && ProcessingOrder(iv)[t] == p
    ensures p in PackResult(iv)
    ensures PackResult(iv)[p] == Run(iv, ProcessingOrder(iv), |iv|).history[t]
  {
    var order := ProcessingOrder(iv);
    assert p in order;
    t :| 0 <= t < |order| && order[t] == p;
    SortedDistinct(iv, order);
    RunAssigns(iv, order, |iv|);
  }

  /** Every position gets exactly one lane, and nothing else does. */
  lemma PackDomain(iv: seq<Interval>)
    ensures forall p :: p in PackResult(iv) <==> 0 <= p < |iv|
  {
    var order := ProcessingOrder(iv);
    RunKeys(iv, order, |iv|);
    assert order[..|iv|] == order;
  }

  /** Some position is in lane `l`. */
  ghost predicate LaneUsed(m: map<nat, nat>, l: nat) {
    exists p :: p in m && m[p] == l
  }

  /** The lanes in use are exactly 0 .. LaneCount - 1. */
  lemma PackLanesContiguous(iv: seq<Interval>)
    ensures forall p :: p in PackResult(iv) ==> PackResult(iv)[p] < LaneCount(iv)
    ensures forall l: nat :: l < LaneCount(iv) ==> LaneUsed(PackResult(iv), l)
  {
    var order := ProcessingOrder(iv);
    var st := Run(iv, order, |iv|);
    var m := PackResult(iv);
    PackDomain(iv);
    RunLanesBounded(iv, order, |iv|);
    RunLaneEnds(iv, order, |iv|);
    forall p | p in m ensures m[p] < LaneCount(iv) {
      var t := StepOf(iv, p);
    }
    forall l: nat | l < LaneCount(iv) ensures LaneUsed(m, l) {
      assert EndWitnessed(iv, order, st, |iv|, l);
      var u :| 0 <= u < |iv| && st.history[u] == l && st.laneEnds[l] == iv[order[u]].end;
      var t := StepOf(iv, order[u]);
      SortedDistinct(iv, order);
      assert t == u;
    }
  }

  /** First fit: an interval sits in lane `l` only because every lower lane
      already held an interval, earlier in processing order, that was still
      running when it started. */
  lemma PackFirstFit(iv: seq<Interval>, p: nat, l: nat)
    requires p < |iv| && p in PackResult(iv) && l < PackResult(iv)[p]
    ensures exists q ::
      && 0 <= q < |iv| && q in PackResult(iv) && PackResult(iv)[q] == l
      && Before(iv[q], q, iv[p], p) && iv[q].end > iv[p].start
  {
    var order := ProcessingOrder(iv);
    PackDomain(iv);
    var t := StepOf(iv, p);
    FirstFitSteps(iv, order, t, l);
    var st := Run(iv, order, |iv|);
    var u :| 0 <= u < t && st.history[u] == l && iv[order[u]].end > iv[order[t]].start;
    var q := order[u];
    var t' := StepOf(iv, q);
    SortedDistinct(iv, order);
    assert t' == u;
  }

  /** Intervals sharing a lane do not overlap: the one processed first ends
      no later than the other starts. */
  lemma PackNoOverlap(iv: seq<Interval>, p: nat, q: nat)
    requires p in PackResult(iv) && q in PackResult(iv) && p != q
    requires PackResult(iv)[p] == PackResult(iv)[q]
    ensures p < |iv| && q < |iv|
    ensures Before(iv[q], q, iv[p], p) ==> iv[q].end <= iv[p].start
    ensures iv[q].end <= iv[p].start || iv[p].end <= iv[q].start
  {
    var order := ProcessingOrder(iv);
    PackDomain(iv);
    var t := StepOf(iv, p);
    var u := StepOf(iv, q);
    if u < t {
      NoOverlapSorted(iv, order, u, t);
    } else {
      NoOverlapSorted(iv, order, t, u);
    }
  }

  /** The three-interval example: (100, 200), (150, 250), (210, 300) get
      lanes 0, 1, 0. */
  lemma PackExample()
    ensures PackResult([Interval(100, 200), Interval(150, 250), Interval(210, 300)])
      == map[0 := 0, 1 := 1, 2 := 0]
  {
    var iv := [Interval(100, 200), Interval(150, 250), Interval(210, 300)];
    assert SortFirst(iv, 1) == [0];
    assert SortFirst(iv, 2) == [0, 1];
    assert Insert(iv, 2, [1]) == [1, 2];
    assert [0, 1][1..] == [1];
    assert ProcessingOrder(iv) == [0, 1, 2];
    var order := [0, 1, 2];
    assert Run(iv, order, 1) == Lanes([200], map[0 := 0], [0]);
    assert Run(iv, order, 2) == Lanes([200, 250], map[0 := 0, 1 := 1], [0, 1]);
    assert Run(iv, order, 3) == Lanes([300, 250], map[0 := 0, 1 := 1, 2 := 0], [0, 1, 0]);
  }

  // ---------------------------------------------------------------------
  // prepare_spans_and_points
  // ---------------------------------------------------------------------

  /** A span entry: the row's index label, its years, the row, its lane. */
  datatype Span = Span(index: int, start: int, end: int, data: Event, lane: nat)

  predicate IsSpan(r: Row, timeRange: int) {
    ShouldRenderAsSpan(r.ev, timeRange, None)
  }

  function SpanP(timeRange: int): Row -> bool { r => IsSpan(r, timeRange) }

  function PointP(timeRange: int): Row -> bool { r => !IsSpan(r, timeRange) }

  /** The rows drawn as spans, in row order. */
  function SpanRows(rows: seq<Row>, timeRange: int): (r: seq<Row>)
    ensures forall x :: x in r ==> x.ev.startYear.Some? && x.ev.endYear.Some?
  {
    var r := Filter(rows, SpanP(timeRange));
    assert forall x :: x in r ==> SpanP(timeRange)(x);
    r
  }

  /** The rows drawn as points, in row order. */
  function PointRows(rows: seq<Row>, timeRange: int): seq<Row> {
    Filter(rows, PointP(timeRange))
  }

  /** The intervals handed to `pack_intervals`, one per span row. */
  function SpanIntervals(spanRows: seq<Row>): (iv: seq<Interval>)
    requires forall x :: x in spanRows ==> x.ev.startYear.Some? && x.ev.endYear.Some?
    ensures |iv| == |spanRows|
    ensures forall i :: 0 <= i < |iv| ==>
      iv[i] == Interval(spanRows[i].ev.startYear.value, spanRows[i].ev.endYear.value)
  {
    seq(|spanRows|, i requires 0 <= i < |spanRows| =>
      Interval(spanRows[i].ev.startYear.value, spanRows[i].ev.endYear.value))
  }

  /** `lane_assignments.get(label, 0)`. */
  function LookupLane(m: map<nat, nat>, key: int): nat {
    if key >= 0 && key as nat in m then m[key as nat] else 0
  }

  /** The span entries as written: each looks its lane up by its row's
      index label. */
  function LanedSpans(spanRows: seq<Row>, m: map<nat, nat>): (spans: seq<Span>)
    requires forall x :: x in spanRows ==> x.ev.startYear.Some? && x.ev.endYear.Some?
    ensures |spans| == |spanRows|
    ensures forall i :: 0 <= i < |spans| ==>
      spans[i] == Span(spanRows[i].index, spanRows[i].ev.startYear.value, spanRows[i].ev.endYear.value,
                       spanRows[i].ev, LookupLane(m, spanRows[i].index))
  {
    seq(|spanRows|, i requires 0 <= i < |spanRows| =>
      Span(spanRows[i].index, spanRows[i].ev.startYear.value, spanRows[i].ev.endYear.value,
           spanRows[i].ev, LookupLane(m, spanRows[i].index)))
  }

  method PrepareSpansAndPoints(rows: seq<Row>, timeRange: int)
    returns (spans: seq<Span>, points: seq<Row>, laneAssignments: map<nat, nat>)
    ensures points == PointRows(rows, timeRange)
    ensures laneAssignments == PackResult(SpanIntervals(SpanRows(rows, timeRange)))
    ensures spans == LanedSpans(SpanRows(rows, timeRange), laneAssignments)
  {
    var spanRows, intervals;
    spanRows, intervals, points := SeparateSpans(rows, timeRange);
    if |spanRows| > 0 {
      laneAssignments := PackIntervals(intervals);
      spans := AttachLanes(spanRows, laneAssignments);
    } else {
      laneAssignments := map[];
      spans := [];
    }
  }

  /** The first loop: each row becomes a span entry or a point. */
  method SeparateSpans(rows: seq<Row>, timeRange: int)
    returns (spanRows: seq<Row>, intervals: seq<Interval>, points: seq<Row>)
    ensures spanRows == SpanRows(rows, timeRange)
    ensures intervals == SpanIntervals(spanRows)
    ensures points == PointRows(rows, timeRange)
  {
    spanRows, intervals, points := [], [], [];
    for i := 0 to |rows|
      invariant spanRows == SpanRows(rows[..i], timeRange)
      invariant intervals == SpanIntervals(spanRows)
      invariant points == PointRows(rows[..i], timeRange)
    {
      var row := rows[i];
      SeparateStep(rows, i, timeRange);
      var isSpan := ShouldRenderAsSpan(row.ev, timeRange, None);
      if isSpan {
        spanRows := spanRows + [row];
        intervals := intervals + [Interval(row.ev.startYear.value, row.ev.endYear.value)];
      } else {
        points := points + [row];
      }
    }
    assert rows[..|rows|] == rows;
  }

  lemma SeparateStep(rows: seq<Row>, i: nat, timeRange: int)
    requires i < |rows|
    ensures SpanRows(rows[..i + 1], timeRange)
      == SpanRows(rows[..i], timeRange) + (if IsSpan(rows[i], timeRange) then [rows[i]] else [])
    ensures PointRows(rows[..i + 1], timeRange)
      == PointRows(rows[..i], timeRange) + (if IsSpan(rows[i], timeRange) then [] else [rows[i]])
  {
    assert rows[..i + 1] == rows[..i] + [rows[i]];
    FilterSnoc(rows[..i], rows[i], SpanP(timeRange));
    FilterSnoc(rows[..i], rows[i], PointP(timeRange));
  }

  /** The second loop: `span['lane'] = lane_assignments.get(span['index'], 0)`. */
  method AttachLanes(spanRows: seq<Row>, m: map<nat, nat>) returns (spans: seq<Span>)
    requires forall x :: x in spanRows ==> x.ev.startYear.Some? && x.ev.endYear.Some?
    ensures spans == LanedSpans(spanRows, m)
  {
    spans := [];
    for j := 0 to |spanRows|
      invariant spans == LanedSpans(spanRows[..j], m)
    {
      var r := spanRows[j];
      assert spanRows[..j + 1] == spanRows[..j] + [r];
      spans := spans + [Span(r.index, r.ev.startYear.value, r.ev.endYear.value, r.ev, LookupLane(m, r.index))];
    }
    assert spanRows[..|spanRows|] == spanRows;
  }

  /** Every row is drawn exactly once: as a span or as a point. */
  lemma SpansAndPointsPartition(rows: seq<Row>, timeRange: int)
    ensures |SpanRows(rows, timeRange)| + |PointRows(rows, timeRange)| == |rows|
    ensures forall r :: r in SpanRows(rows, timeRange) ==> r in rows && IsSpan(r, timeRange)
    ensures forall r :: r in PointRows(rows, timeRange) ==> r in rows && !IsSpan(r, timeRange)
  {
    FilterComplement(rows, SpanP(timeRange), PointP(timeRange));
  }

  // ---------------------------------------------------------------------
  // Lane lookup by label
  // ---------------------------------------------------------------------

  /** As written, two overlapping spans whose index labels are not their
      positions in the span list (here 5 and 7) both fall back to lane 0. */
  lemma LabelLookupStacksOverlaps()
    ensures var rows := [Row(5, Event("a", "A", None, None, Some(0), Some(100), Some(0), None, None)),
                         Row(7, Event("b", "B", None, None, Some(50), Some(150), Some(50), None, None))];
      var spanRows := SpanRows(rows, 1000);
      var spans := LanedSpans(spanRows, PackResult(SpanIntervals(spanRows)));
      && |spans| == 2
      && spans[0].lane == spans[1].lane == 0
      && spans[0].start < spans[1].end && spans[1].start < spans[0].end
  {
    var rows := [Row(5, Event("a", "A", None, None, Some(0), Some(100), Some(0), None, None)),
                 Row(7, Event("b", "B", None, None, Some(50), Some(150), Some(50), None, None))];
    assert IsSpan(rows[0], 1000) && IsSpan(rows[1], 1000);
    FilterAll(rows, SpanP(1000));
    var m := PackResult(SpanIntervals(rows));
    PackDomain(SpanIntervals(rows));
    assert 5 !in m && 7 !in m;
  }

  /** The evidently intended lookup: a span's lane is the lane packed for
      its position in the span list. */
  function LanedSpansByPosition(spanRows: seq<Row>, m: map<nat, nat>): (spans: seq<Span>)
    requires forall x :: x in spanRows ==> x.ev.startYear.Some? && x.ev.endYear.Some?
    requires forall i :: 0 <= i < |spanRows| ==> i in m
    ensures |spans| == |spanRows|
    ensures forall i :: 0 <= i < |spans| ==>
      spans[i] == Span(spanRows[i].index, spanRows[i].ev.startYear.value, spanRows[i].ev.endYear.value,
                       spanRows[i].ev, m[i])
  {
    seq(|spanRows|, i requires 0 <= i < |spanRows| =>
      Span(spanRows[i].index, spanRows[i].ev.startYear.value, spanRows[i].ev.endYear.value,
           spanRows[i].ev, m[i]))
  }

  /** With lanes looked up by position, spans sharing a lane never overlap. */
  lemma ByPositionNoOverlap(rows: seq<Row>, timeRange: int, i: nat, j: nat)
    requires i < j < |SpanRows(rows, timeRange)|
    ensures var sr := SpanRows(rows, timeRange);
      var m := PackResult(SpanIntervals(sr));
      (forall k :: 0 <= k < |sr| ==> k in m)
      && var spans := LanedSpansByPosition(sr, m);
      spans[i].lane == spans[j].lane ==> spans[i].end <= spans[j].start || spans[j].end <= spans[i].start
  {
    var sr := SpanRows(rows, timeRange);
    var iv := SpanIntervals(sr);
    PackDomain(iv);
    var m := PackResult(iv);
    if m[i] == m[j] {
      PackNoOverlap(iv, i, j);
    }
  }

  /** When every span row's label is its position in the span list (a
      default index with every row a span), the lookup as written agrees
      with the intended one. */
  lemma LookupAgreesWhenLabelsArePositions(rows: seq<Row>, timeRange: int)
    requires var sr := SpanRows(rows, timeRange);
      forall k :: 0 <= k < |sr| ==> sr[k].index == k
    ensures var sr := SpanRows(rows, timeRange);
      var m := PackResult(SpanIntervals(sr));
      (forall k :: 0 <= k < |sr| ==> k in m)
      && LanedSpans(sr, m) == LanedSpansByPosition(sr, m)
  {
    var sr := SpanRows(rows, timeRange);
    PackDomain(SpanIntervals(sr));
  }
}
