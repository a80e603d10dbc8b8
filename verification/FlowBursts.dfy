/** Burst detection of core/flow/features.py over exact time: a two-pointer scan that merges
    overlapping dense windows, against a definition that mentions neither pointers nor merging. */
module FlowBursts {

  const WINDOW: real := 0.1
  const MIN_PKTS := 10

  datatype Interval = Interval(start: real, end: real)

  ghost predicate NonDecreasing(times: seq<real>) {
    forall i, j :: 0 <= i < j < |times| ==> times[i] <= times[j]
  }

  // ---------------------------------------------------------------------------
  // Definition
  // ---------------------------------------------------------------------------

  /** Packets whose time falls in the closed window starting at `s`. */
  ghost function PacketsIn(times: seq<real>, s: real): set<int> {
    set i | 0 <= i < |times| && s <= times[i] <= s + WINDOW
  }

  /** `x` lies between two packets of some window that holds more than ten. */
  ghost predicate InDenseWindow(times: seq<real>, x: real) {
    exists s, i, j ::
      |PacketsIn(times, s)| > MIN_PKTS && i in PacketsIn(times, s) && j in PacketsIn(times, s)
      && times[i] <= x <= times[j]
  }

  /** Packets `a` to `b` are more than ten and span at most one window. */
  ghost predicate Run(times: seq<real>, a: int, b: int) {
    0 <= a && a + MIN_PKTS <= b < |times| && times[b] - times[a] <= WINDOW
  }

  ghost predicate InRun(times: seq<real>, a: int, b: int, x: real) {
    Run(times, a, b) && times[a] <= x <= times[b]
  }

  ghost predicate Bursty(times: seq<real>, x: real) {
    exists a, b :: InRun(times, a, b, x)
  }

  // ---------------------------------------------------------------------------
  // The scan
  // ---------------------------------------------------------------------------

  /** The inner pointer: the first packet from `j` on that is outside the window at `i`. */
  function Reach(times: seq<real>, i: nat, j: nat): (r: nat)
    requires i < |times| && j <= |times|
    ensures j <= r <= |times|
    decreases |times| - j
  {
    if j < |times| && times[j] - times[i] <= WINDOW then Reach(times, i, j + 1) else j
  }

  function Max(x: real, y: real): real {
    if x < y then y else x
  }

  /** Extend the last interval when the new one starts within it, else append. */
  function Merge(intervals: seq<Interval>, w: Interval): seq<Interval> {
    var n := |intervals| - 1;
    if n >= 0 && w.start <= intervals[n].end
    then intervals[n := Interval(intervals[n].start, Max(intervals[n].end, w.end))]
    else intervals + [w]
  }

  /** The intervals once packet `i`, whose window ends before packet `r`, is taken into account. */
  function Stepped(times: seq<real>, i: nat, r: nat, intervals: seq<Interval>): seq<Interval>
    requires i < |times| && r <= |times|
  {
    if r - i > MIN_PKTS then Merge(intervals, Interval(times[i], times[r - 1])) else intervals
  }

  function Scan(times: seq<real>, i: nat, j: nat, intervals: seq<Interval>): seq<Interval>
    requires i <= |times| && j <= |times|
    decreases |times| - i
  {
    if i == |times| then intervals
    else
      var r := Reach(times, i, j);
      Scan(times, i + 1, r, Stepped(times, i, r, intervals))
  }

  function Bursts(times: seq<real>): seq<Interval> {
    Scan(times, 0, 0, [])
  }

  /** The loop of `_burst_intervals`; `moves` counts the inner pointer's steps over the whole scan. */
  method BurstIntervals(times: seq<real>) returns (intervals: seq<Interval>, ghost moves: nat)
    ensures intervals == Bursts(times)
    ensures moves <= |times|
  {
    intervals := [];
    moves := 0;
    var n, j, i := |times|, 0, 0;
    while i < n
      invariant 0 <= i <= n && 0 <= j <= n
      invariant Scan(times, i, j, intervals) == Bursts(times)
      invariant moves == j
    {
      ghost var j0 := j;
      while j < n && times[j] - times[i] <= WINDOW
        invariant 0 <= j <= n
        invariant Reach(times, i, j) == Reach(times, i, j0)
        invariant moves == j
      {
        j := j + 1;
        moves := moves + 1;
      }
      if j - i > MIN_PKTS {
        var start, end := times[i], times[j - 1];
        if |intervals| > 0 && start <= intervals[|intervals| - 1].end {
          var last := intervals[|intervals| - 1];
          intervals := intervals[|intervals| - 1 := Interval(last.start, Max(last.end, end))];
        } else {
          intervals := intervals + [Interval(start, end)];
        }
      }
      i := i + 1;
    }
  }

  // ---------------------------------------------------------------------------
  // Correctness of the scan
  // ---------------------------------------------------------------------------

  ghost predicate Contains(w: Interval, x: real) {
    w.start <= x <= w.end
  }

  ghost predicate Covered(intervals: seq<Interval>, lo: real, hi: real) {
    exists k :: 0 <= k < |intervals| && intervals[k].start <= lo && hi <= intervals[k].end
  }

  ghost predicate Separated(intervals: seq<Interval>) {
    && (forall k :: 0 <= k < |intervals| ==> intervals[k].start <= intervals[k].end)
    && (forall k :: 0 <= k < |intervals| - 1 ==> intervals[k].end < intervals[k + 1].start)
  }

  ghost predicate Sound(times: seq<real>, intervals: seq<Interval>) {
    forall k, x :: 0 <= k < |intervals| && Contains(intervals[k], x) ==> Bursty(times, x)
  }

  /** Every dense run starting before packet `i` lies inside one interval. */
  ghost predicate CompleteTo(times: seq<real>, intervals: seq<Interval>, i: int) {
    forall a, b :: a < i && Run(times, a, b) ==> Covered(intervals, times[a], times[b])
  }

  /** The last interval spans packets `a` to `b`, and each interval has eleven packets of its own. */
  ghost predicate LastSpans(times: seq<real>, intervals: seq<Interval>, a: int, b: int) {
    intervals != [] ==>
      && 0 <= a <= b < |times|
      && intervals[|intervals| - 1] == Interval(times[a], times[b])
      && 11 * |intervals| <= b + 1
  }

  ghost predicate ScanDone(times: seq<real>, out: seq<Interval>) {
    Separated(out) && Sound(times, out) && CompleteTo(times, out, |times|) && 11 * |out| <= |times|
  }

  /** The state of the scan before packet `i`. */
  ghost predicate ScanInv(times: seq<real>, i: int, j: int, intervals: seq<Interval>, a: int, b: int) {
    && 0 <= i <= |times| && i <= j <= |times|
    && (forall k :: i <= k < j ==> times[k] - times[i] <= WINDOW)
    && Separated(intervals)
    && Sound(times, intervals)
    && CompleteTo(times, intervals, i)
    && LastSpans(times, intervals, a, b)
    && (intervals != [] ==> a < i && b < j)
  }

  lemma {:induction false} ReachIsWindowEnd(times: seq<real>, i: nat, j: nat)
    requires NonDecreasing(times) && i < |times| && i <= j <= |times|
    requires forall k :: i <= k < j ==> times[k] - times[i] <= WINDOW
    ensures var r := Reach(times, i, j);
            && i < r
            && (forall k :: i <= k < r ==> times[k] - times[i] <= WINDOW)
            && (r < |times| ==> times[r] - times[i] > WINDOW)
    decreases |times| - j
  {
    if j < |times| && times[j] - times[i] <= WINDOW {
      ReachIsWindowEnd(times, i, j + 1);
    }
  }

  lemma NoRunFrom(times: seq<real>, i: nat, r: nat, b: int)
    requires NonDecreasing(times) && i < r <= |times| && r - i <= MIN_PKTS
    requires r < |times| ==> times[r] - times[i] > WINDOW
    ensures !Run(times, i, b)
  {
    if r < b < |times| {
      assert times[r] <= times[b];
    }
  }

  lemma MergeIsSound(times: seq<real>, intervals: seq<Interval>, w: Interval, i: nat, r: nat)
    requires Sound(times, intervals) && Run(times, i, r - 1) && w == Interval(times[i], times[r - 1])
    ensures Sound(times, Merge(intervals, w))
  {
    var merged := Merge(intervals, w);
    forall k, x | 0 <= k < |merged| && Contains(merged[k], x) ensures Bursty(times, x) {
      if Contains(w, x) {
        assert InRun(times, i, r - 1, x);
      } else if k < |intervals| {
        assert Contains(intervals[k], x);
      }
    }
  }

  lemma CoveredAfterMerge(intervals: seq<Interval>, w: Interval, lo: real, hi: real)
    requires Covered(intervals, lo, hi)
    ensures Covered(Merge(intervals, w), lo, hi)
  {
    var k :| 0 <= k < |intervals| && intervals[k].start <= lo && hi <= intervals[k].end;
    var merged := Merge(intervals, w);
    assert merged[k].start <= lo && hi <= merged[k].end;
  }

  lemma MergeIsComplete(times: seq<real>, intervals: seq<Interval>, w: Interval, i: nat, r: nat)
    requires NonDecreasing(times) && i < r <= |times|
    requires CompleteTo(times, intervals, i)
    requires w == Interval(times[i], times[r - 1])
    requires r < |times| ==> times[r] - times[i] > WINDOW
    requires intervals != [] ==> intervals[|intervals| - 1].start <= w.start
    ensures CompleteTo(times, Merge(intervals, w), i + 1)
  {
    var merged := Merge(intervals, w);
    forall a, b | a < i + 1 && Run(times, a, b) ensures Covered(merged, times[a], times[b]) {
      if a < i {
        CoveredAfterMerge(intervals, w, times[a], times[b]);
      } else {
        assert b < r;
        assert times[b] <= w.end;
        var k := |merged| - 1;
        assert merged[k].start <= times[a] && times[b] <= merged[k].end;
      }
    }
  }

  /** One iteration of the outer loop. */
  lemma ScanStep(times: seq<real>, i: nat, j: nat, intervals: seq<Interval>, a: int, b: int)
    returns (intervals': seq<Interval>, a': int, b': int)
    requires NonDecreasing(times) && i < |times| && ScanInv(times, i, j, intervals, a, b)
    ensures var r := Reach(times, i, j);
            && intervals' == Stepped(times, i, r, intervals)
            && ScanInv(times, i + 1, r, intervals', a', b')
  {
    ReachIsWindowEnd(times, i, j);
    var r := Reach(times, i, j);
    var w := Interval(times[i], times[r - 1]);
    if r - i > MIN_PKTS {
      intervals' := Merge(intervals, w);
      assert Run(times, i, r - 1);
      MergeIsSound(times, intervals, w, i, r);
      MergeIsComplete(times, intervals, w, i, r);
      var merging := intervals != [] && w.start <= intervals[|intervals| - 1].end;
      a' := if merging then a else i;
      b' := r - 1;
      if merging {
        assert times[b] <= times[b'];
      } else if intervals != [] {
        assert times[b] < times[i];
        assert b < i;
      }
    } else {
      intervals', a', b' := intervals, a, b;
      forall x, y | x < i + 1 && Run(times, x, y) ensures Covered(intervals, times[x], times[y]) {
        if x == i {
          NoRunFrom(times, i, r, y);
        }
      }
    }
    if i + 1 < |times| {
      assert times[i] <= times[i + 1];
    }
  }

  lemma ScanEnd(times: seq<real>, j: nat, intervals: seq<Interval>, a: int, b: int)
    requires ScanInv(times, |times|, j, intervals, a, b)
    ensures ScanDone(times, intervals)
  {
  }

  lemma {:induction false} ScanIsCorrect(times: seq<real>, i: nat, j: nat, intervals: seq<Interval>, a: int, b: int)
    requires NonDecreasing(times) && ScanInv(times, i, j, intervals, a, b)
    ensures ScanDone(times, Scan(times, i, j, intervals))
    decreases |times| - i
  {
    if i == |times| {
      ScanEnd(times, j, intervals, a, b);
    } else {
      var intervals', a', b' := ScanStep(times, i, j, intervals, a, b);
      ScanIsCorrect(times, i + 1, Reach(times, i, j), intervals', a', b');
    }
  }

  /** Main result.  The scan's intervals are ordered and strictly apart, their union is exactly
      the set of bursty instants, and each uses up eleven packets of its own. */
  lemma BurstsAreDenseRuns(times: seq<real>)
    requires NonDecreasing(times)
    ensures Separated(Bursts(times))
    ensures forall x :: Bursty(times, x) <==> exists k :: 0 <= k < |Bursts(times)| && Contains(Bursts(times)[k], x)
    ensures 11 * |Bursts(times)| <= |times|
  {
    ScanIsCorrect(times, 0, 0, [], 0, 0);
    var out := Bursts(times);
    forall x | Bursty(times, x) ensures exists k :: 0 <= k < |out| && Contains(out[k], x) {
      var a, b :| InRun(times, a, b, x);
      assert Covered(out, times[a], times[b]);
      var k :| 0 <= k < |out| && out[k].start <= times[a] && times[b] <= out[k].end;
      assert Contains(out[k], x);
    }
  }

  // ---------------------------------------------------------------------------
  // Runs of packets are dense windows
  // ---------------------------------------------------------------------------

  ghost function Indices(a: int, b: int): (r: set<int>)
    requires a <= b + 1
    ensures |r| == b - a + 1
    ensures forall i :: i in r <==> a <= i <= b
    decreases b - a
  {
    if a <= b then {a} + Indices(a + 1, b) else {}
  }

  lemma SubsetIsSmaller(a: set<int>, b: set<int>)
    requires a <= b
    ensures |a| <= |b|
  {
    assert b == a + (b - a);
  }

  lemma Extremes(s: set<int>) returns (lo: int, hi: int)
    requires exists x :: x in s
    ensures lo in s && hi in s && forall i :: i in s ==> lo <= i <= hi
    decreases |s|
  {
    var x :| x in s;
    if exists y :: y in s && y != x {
      var y :| y in s && y != x;
      assert y in s - {x};
      var l, h := Extremes(s - {x});
      assert forall i :: i in s ==> i == x || i in s - {x};
      lo := if x < l then x else l;
      hi := if x > h then x else h;
    } else {
      lo, hi := x, x;
    }
  }

  /** The definition by index runs is the definition by windows of real time. */
  lemma BurstyIffInDenseWindow(times: seq<real>, x: real)
    requires NonDecreasing(times)
    ensures Bursty(times, x) <==> InDenseWindow(times, x)
  {
    if Bursty(times, x) {
      var a, b :| InRun(times, a, b, x);
      var held := PacketsIn(times, times[a]);
      forall i | i in Indices(a, b) ensures i in held {
        assert times[a] <= times[i] <= times[b];
      }
      SubsetIsSmaller(Indices(a, b), held);
      assert a in held && b in held;
    }
    if InDenseWindow(times, x) {
      var s, i, j :|
        |PacketsIn(times, s)| > MIN_PKTS && i in PacketsIn(times, s) && j in PacketsIn(times, s)
        && times[i] <= x <= times[j];
      var held := PacketsIn(times, s);
      var a, b := Extremes(held);
      SubsetIsSmaller(held, Indices(a, b));
      assert times[a] <= times[i] && times[j] <= times[b];
      assert InRun(times, a, b, x);
    }
  }

  /** A window is a tenth of a second and is dense from eleven packets on. */
  lemma WindowMeans()
    ensures WINDOW * 1000.0 == 100.0 && MIN_PKTS + 1 == 11
  {
  }
}
