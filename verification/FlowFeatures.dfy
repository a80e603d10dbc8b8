/** The thirteen flow features of core/flow/features.py over exact arithmetic.  A standard
    deviation appears as its square, the variance; nothing is rounded. */
module FlowFeatures {
  import opened Sorting
  import opened FlowBursts

  datatype Packet = Packet(time: real, size: int, direction: int)

  datatype Features = Features(
    sizeMean: real, sizeVariance: real, sizeP10: real, sizeP90: real,
    iatMeanMs: real, iatVarianceMs: real, dirRatio: real,
    burstCount: nat, burstGapRatio: real, payloadVarianceInBursts: real,
    durationSec: real, pktTotal: nat, ratePps: real)

  const ZERO := Features(0.0, 0.0, 0.0, 0.0, 0.0, 0.0, 0.0, 0, 0.0, 0.0, 0.0, 0, 0.0)

  // ---------------------------------------------------------------------------
  // Statistics
  // ---------------------------------------------------------------------------

  function Sum(xs: seq<real>): real {
    if xs == [] then 0.0 else xs[0] + Sum(xs[1..])
  }

  function Mean(xs: seq<real>): real
    requires xs != []
  {
    Sum(xs) / (|xs| as real)
  }

  function Square(x: real): real {
    x * x
  }

  function SquareFrom(m: real): real -> real {
    x => Square(x - m)
  }

  function Variance(xs: seq<real>): real {
    if |xs| <= 1 then 0.0
    else Mean(Mapped(SquareFrom(Mean(xs)), xs))
  }

  predicate Leq(x: real, y: real) {
    x <= y
  }

  predicate Earlier(p: Packet, q: Packet) {
    p.time <= q.time
  }

  function Position(n: nat, q: real): real {
    q / 100.0 * ((n - 1) as real)
  }

  /** Linear interpolation between the two neighbouring order statistics. */
  function Percentile(sorted: seq<real>, q: real): real
    requires 0.0 <= q <= 100.0
  {
    if sorted == [] then 0.0
    else if |sorted| == 1 then sorted[0]
    else
      var pos := Position(|sorted|, q);
      var lo := pos.Floor;
      if lo + 1 >= |sorted| then sorted[|sorted| - 1]
      else if lo < 0 then sorted[0]
      else sorted[lo] + (pos - lo as real) * (sorted[lo + 1] - sorted[lo])
  }

  function Times(pkts: seq<Packet>): seq<real> {
    Mapped((p: Packet) => p.time, pkts)
  }

  function Sizes(pkts: seq<Packet>): seq<real> {
    Mapped((p: Packet) => p.size as real, pkts)
  }

  function SizesUp(pkts: seq<Packet>): seq<real> {
    Mapped((p: Packet) => if p.direction >= 0 then p.size as real else 0.0, pkts)
  }

  function SizesDown(pkts: seq<Packet>): seq<real> {
    Mapped((p: Packet) => if p.direction < 0 then p.size as real else 0.0, pkts)
  }

  function GapsMs(times: seq<real>): seq<real> {
    seq(if times == [] then 0 else |times| - 1, k requires 0 <= k < |times| - 1 => (times[k + 1] - times[k]) * 1000.0)
  }

  function Durations(bursts: seq<Interval>): seq<real> {
    Mapped((w: Interval) => w.end - w.start, bursts)
  }

  function GapsBetween(bursts: seq<Interval>): seq<real> {
    seq(if bursts == [] then 0 else |bursts| - 1,
        k requires 0 <= k < |bursts| - 1 => bursts[k + 1].start - bursts[k].end)
  }

  predicate InSome(bursts: seq<Interval>, t: real) {
    exists k :: 0 <= k < |bursts| && bursts[k].start <= t <= bursts[k].end
  }

  function SizeIfInBurst(p: Packet, bursts: seq<Interval>): seq<real> {
    if InSome(bursts, p.time) then [p.size as real] else []
  }

  function SizesInBursts(pkts: seq<Packet>, bursts: seq<Interval>): seq<real> {
    if pkts == [] then [] else SizeIfInBurst(pkts[0], bursts) + SizesInBursts(pkts[1..], bursts)
  }

  function DirRatio(up: real, down: real, total: nat): real {
    if down != 0.0 then up / down else if up != 0.0 then total as real else 0.0
  }

  function GapRatio(bursts: seq<Interval>): real {
    if bursts == [] then 0.0
    else
      var gaps := GapsBetween(bursts);
      var meanGap := if gaps == [] then 0.0 else Mean(gaps);
      if meanGap > 0.0 then Mean(Durations(bursts)) / meanGap else |bursts| as real
  }

  function MeanOrZero(xs: seq<real>): real {
    if xs == [] then 0.0 else Mean(xs)
  }

  function Rate(n: nat, duration: real): real {
    if duration > 0.0 then n as real / duration else 0.0
  }

  /** The features, from the packet times and the order-free statistics of the sizes. */
  function Combined(times: seq<real>, sizeSum: real, sizeVariance: real, p10: real, p90: real,
                    up: real, down: real, burstVariance: real): Features
    requires times != []
  {
    var n := |times|;
    var gaps := GapsMs(times);
    var bursts := Bursts(times);
    var duration := times[n - 1] - times[0];
    Features(
      sizeSum / (n as real), sizeVariance, p10, p90,
      MeanOrZero(gaps), Variance(gaps), DirRatio(up, down, n),
      |bursts|, GapRatio(bursts), burstVariance,
      duration, n, Rate(n, duration))
  }

  /** The features of packets already in time order. */
  function Measured(pkts: seq<Packet>): Features
    requires pkts != []
  {
    var times, sizes := Times(pkts), Sizes(pkts);
    var bySize := Sort(Leq, sizes);
    Combined(times, Sum(sizes), Variance(sizes), Percentile(bySize, 10.0), Percentile(bySize, 90.0),
             Sum(SizesUp(pkts)), Sum(SizesDown(pkts)), Variance(SizesInBursts(pkts, Bursts(times))))
  }

  function FeatureVector(packets: seq<Packet>): Features {
    var pkts := Sort(Earlier, packets);
    if pkts == [] then ZERO else Measured(pkts)
  }

  // ---------------------------------------------------------------------------
  // Order independence
  // ---------------------------------------------------------------------------

  lemma OrdersAreOrders()
    ensures TotalPreorder(Leq) && Antisymmetric(Leq) && TotalPreorder(Earlier)
  {
  }

  lemma {:induction false} SumForgetsOrder(xs: seq<real>, ys: seq<real>)
    requires multiset(xs) == multiset(ys)
    ensures Sum(xs) == Sum(ys)
    decreases |xs|
  {
    assert |multiset(xs)| == |multiset(ys)|;
    if xs != [] {
      assert xs[0] in multiset(ys);
      var k :| 0 <= k < |ys| && ys[k] == xs[0];
      RemoveAtMultiset(xs, 0);
      RemoveAtMultiset(ys, k);
      assert RemoveAt(xs, 0) == xs[1..];
      assert multiset(xs[1..]) == multiset(xs) - multiset{xs[0]} == multiset(RemoveAt(ys, k));
      SumForgetsOrder(xs[1..], RemoveAt(ys, k));
      SumRemoveAt(ys, k);
    }
  }

  lemma {:induction false} SumRemoveAt(xs: seq<real>, k: nat)
    requires k < |xs|
    ensures Sum(xs) == xs[k] + Sum(RemoveAt(xs, k))
    decreases |xs|
  {
    if k == 0 {
      assert RemoveAt(xs, 0) == xs[1..];
    } else {
      SumRemoveAt(xs[1..], k - 1);
      assert RemoveAt(xs, k) == [xs[0]] + RemoveAt(xs[1..], k - 1);
    }
  }

  lemma VarianceForgetsOrder(xs: seq<real>, ys: seq<real>)
    requires multiset(xs) == multiset(ys)
    ensures |xs| == |ys| && Variance(xs) == Variance(ys)
  {
    assert |multiset(xs)| == |multiset(ys)|;
    if |xs| > 1 {
      SumForgetsOrder(xs, ys);
      var m := Mean(xs);
      var f := SquareFrom(m);
      MappedMultiset(f, xs, ys);
      SumForgetsOrder(Mapped(f, xs), Mapped(f, ys));
    }
  }

  lemma {:induction false} BurstSizesRemoveAt(pkts: seq<Packet>, bursts: seq<Interval>, k: nat)
    requires k < |pkts|
    ensures multiset(SizesInBursts(pkts, bursts)) ==
            multiset(SizesInBursts(RemoveAt(pkts, k), bursts)) + multiset(SizeIfInBurst(pkts[k], bursts))
    decreases |pkts|
  {
    if k == 0 {
      assert RemoveAt(pkts, 0) == pkts[1..];
    } else {
      var rest := RemoveAt(pkts[1..], k - 1);
      BurstSizesRemoveAt(pkts[1..], bursts, k - 1);
      RemoveLater(pkts, k);
      BurstSizesFirst(pkts[0], rest, bursts);
      AddInFront(SizeIfInBurst(pkts[0], bursts), SizesInBursts(pkts[1..], bursts), SizesInBursts(rest, bursts),
                 SizeIfInBurst(pkts[k], bursts));
    }
  }

  lemma RemoveLater(pkts: seq<Packet>, k: nat)
    requires 0 < k < |pkts|
    ensures RemoveAt(pkts, k) == [pkts[0]] + RemoveAt(pkts[1..], k - 1)
    ensures pkts[1..][k - 1] == pkts[k]
  {
  }

  lemma AddInFront(a: seq<real>, tail: seq<real>, rest: seq<real>, b: seq<real>)
    requires multiset(tail) == multiset(rest) + multiset(b)
    ensures multiset(a + tail) == multiset(a + rest) + multiset(b)
  {
  }

  lemma BurstSizesFirst(p: Packet, rest: seq<Packet>, bursts: seq<Interval>)
    ensures SizesInBursts([p] + rest, bursts) == SizeIfInBurst(p, bursts) + SizesInBursts(rest, bursts)
  {
    assert ([p] + rest)[1..] == rest;
  }

  lemma {:induction false} BurstSizesForgetOrder(a: seq<Packet>, b: seq<Packet>, bursts: seq<Interval>)
    requires multiset(a) == multiset(b)
    ensures multiset(SizesInBursts(a, bursts)) == multiset(SizesInBursts(b, bursts))
    decreases |a|
  {
    assert |multiset(a)| == |multiset(b)|;
    if a != [] {
      assert a[0] in multiset(b);
      var k :| 0 <= k < |b| && b[k] == a[0];
      RemoveAtMultiset(a, 0);
      RemoveAtMultiset(b, k);
      assert multiset(RemoveAt(a, 0)) == multiset(a) - multiset{a[0]} == multiset(RemoveAt(b, k));
      BurstSizesForgetOrder(RemoveAt(a, 0), RemoveAt(b, k), bursts);
      BurstSizesRemoveAt(a, bursts, 0);
      BurstSizesRemoveAt(b, bursts, k);
    }
  }

  lemma TimesAreSorted(pkts: seq<Packet>)
    ensures NonDecreasing(Times(Sort(Earlier, pkts)))
  {
    OrdersAreOrders();
    SortIsSorted(Earlier, pkts);
    var s := Sort(Earlier, pkts);
    forall i, j | 0 <= i < j < |s| ensures Times(s)[i] <= Times(s)[j] {
      assert Earlier(s[i], s[j]);
    }
  }

  lemma SameTimes(a: seq<Packet>, b: seq<Packet>)
    requires multiset(a) == multiset(b)
    requires NonDecreasing(Times(a)) && NonDecreasing(Times(b))
    ensures |a| == |b| && Times(a) == Times(b)
  {
    assert |multiset(a)| == |multiset(b)|;
    OrdersAreOrders();
    MappedMultiset((p: Packet) => p.time, a, b);
    assert Sorted(Leq, Times(a)) && Sorted(Leq, Times(b));
    SortedIsUnique(Leq, Times(a), Times(b));
  }

  lemma SameSizeStatistics(a: seq<Packet>, b: seq<Packet>)
    requires multiset(a) == multiset(b)
    ensures Sum(Sizes(a)) == Sum(Sizes(b)) && Variance(Sizes(a)) == Variance(Sizes(b))
    ensures Sort(Leq, Sizes(a)) == Sort(Leq, Sizes(b))
  {
    OrdersAreOrders();
    MappedMultiset((p: Packet) => p.size as real, a, b);
    SumForgetsOrder(Sizes(a), Sizes(b));
    VarianceForgetsOrder(Sizes(a), Sizes(b));
    SortForgetsOrder(Leq, Sizes(a), Sizes(b));
  }

  lemma SameDirections(a: seq<Packet>, b: seq<Packet>)
    requires multiset(a) == multiset(b)
    ensures Sum(SizesUp(a)) == Sum(SizesUp(b)) && Sum(SizesDown(a)) == Sum(SizesDown(b))
  {
    MappedMultiset((p: Packet) => if p.direction >= 0 then p.size as real else 0.0, a, b);
    SumForgetsOrder(SizesUp(a), SizesUp(b));
    MappedMultiset((p: Packet) => if p.direction < 0 then p.size as real else 0.0, a, b);
    SumForgetsOrder(SizesDown(a), SizesDown(b));
  }

  lemma SameBurstVariance(a: seq<Packet>, b: seq<Packet>, bursts: seq<Interval>)
    requires multiset(a) == multiset(b)
    ensures Variance(SizesInBursts(a, bursts)) == Variance(SizesInBursts(b, bursts))
  {
    BurstSizesForgetOrder(a, b, bursts);
    VarianceForgetsOrder(SizesInBursts(a, bursts), SizesInBursts(b, bursts));
  }

  /** Packets in time order have the same features whatever the order of simultaneous ones. */
  lemma MeasuredForgetsTies(a: seq<Packet>, b: seq<Packet>)
    requires a != [] && multiset(a) == multiset(b)
    requires NonDecreasing(Times(a)) && NonDecreasing(Times(b))
    ensures b != [] && Measured(a) == Measured(b)
  {
    SameTimes(a, b);
    SameSizeStatistics(a, b);
    SameDirections(a, b);
    SameBurstVariance(a, b, Bursts(Times(a)));
  }

  /** Main result.  The feature vector does not depend on the order of its packets. */
  lemma FeatureVectorForgetsOrder(a: seq<Packet>, b: seq<Packet>)
    requires multiset(a) == multiset(b)
    ensures FeatureVector(a) == FeatureVector(b)
  {
    assert |multiset(a)| == |multiset(b)|;
    if a != [] {
      TimesAreSorted(a);
      TimesAreSorted(b);
      MeasuredForgetsTies(Sort(Earlier, a), Sort(Earlier, b));
    }
  }

  // ---------------------------------------------------------------------------
  // Conservation
  // ---------------------------------------------------------------------------

  /** The gaps between consecutive packets add up to the duration of the flow. */
  lemma {:induction false} GapsAddUp(times: seq<real>)
    requires times != []
    ensures Sum(GapsMs(times)) == (times[|times| - 1] - times[0]) * 1000.0
    decreases |times|
  {
    if |times| > 1 {
      GapsAddUp(times[1..]);
      assert GapsMs(times)[1..] == GapsMs(times[1..]);
    }
  }

  /** Every byte is counted once, in one direction. */
  lemma {:induction false} BytesAddUp(pkts: seq<Packet>)
    ensures Sum(SizesUp(pkts)) + Sum(SizesDown(pkts)) == Sum(Sizes(pkts))
  {
    if pkts != [] {
      BytesAddUp(pkts[1..]);
      assert SizesUp(pkts)[1..] == SizesUp(pkts[1..]);
      assert SizesDown(pkts)[1..] == SizesDown(pkts[1..]);
      assert Sizes(pkts)[1..] == Sizes(pkts[1..]);
    }
  }

  lemma {:induction false} SumOfPositive(xs: seq<real>)
    requires forall x :: x in xs ==> x > 0.0
    ensures xs != [] ==> Sum(xs) > 0.0
  {
    if |xs| > 1 {
      assert xs[0] in xs;
      assert forall x :: x in xs[1..] ==> x in xs;
      SumOfPositive(xs[1..]);
    } else if |xs| == 1 {
      assert xs[0] in xs && xs[1..] == [];
    }
  }

  /** The mean gap between bursts is positive whenever there is a gap, so the ratio falls back to
      the burst count only for a single burst. */
  lemma GapRatioIsRealRatio(times: seq<real>)
    requires NonDecreasing(times)
    ensures var bursts := Bursts(times);
            |bursts| > 1 ==>
              Mean(GapsBetween(bursts)) > 0.0
              && GapRatio(bursts) == Mean(Durations(bursts)) / Mean(GapsBetween(bursts))
  {
    var gaps := GapsBetween(Bursts(times));
    GapsArePositive(times);
    SumOfPositive(gaps);
    if gaps != [] {
      PositiveQuotient(Sum(gaps), |gaps| as real);
    }
  }

  lemma GapsArePositive(times: seq<real>)
    requires NonDecreasing(times)
    ensures forall x :: x in GapsBetween(Bursts(times)) ==> x > 0.0
  {
    BurstsAreDenseRuns(times);
    var gaps := GapsBetween(Bursts(times));
    forall x | x in gaps ensures x > 0.0 {
      var k :| 0 <= k < |gaps| && gaps[k] == x;
    }
  }

  lemma PositiveQuotient(x: real, y: real)
    requires x > 0.0 && y > 0.0
    ensures x / y > 0.0
  {
  }

  // ---------------------------------------------------------------------------
  // Percentiles
  // ---------------------------------------------------------------------------

  lemma Interpolation(a: real, b: real, f: real)
    requires a <= b && 0.0 <= f <= 1.0
    ensures a <= a + f * (b - a) <= b
  {
    NonNegativeProduct(f, b - a);
    NonNegativeProduct(1.0 - f, b - a);
    Distribute(f, b - a);
  }

  lemma NonNegativeProduct(x: real, y: real)
    requires x >= 0.0 && y >= 0.0
    ensures x * y >= 0.0
  {
  }

  lemma Distribute(f: real, x: real)
    ensures (1.0 - f) * x == x - f * x
  {
  }

  lemma PositionInRange(n: nat, q: real)
    requires n >= 2 && 0.0 <= q <= 100.0
    ensures var pos := Position(n, q);
            0.0 <= pos <= (n - 1) as real && 0 <= pos.Floor <= n - 1
  {
    var t := q / 100.0;
    assert 0.0 <= t <= 1.0;
    var top := (n - 1) as real;
    NonNegativeProduct(t, top);
    NonNegativeProduct(1.0 - t, top);
    Distribute(t, top);
  }

  /** A percentile lies between the two order statistics around its position. */
  lemma PercentileBrackets(s: seq<real>, q: real)
    requires NonDecreasing(s) && |s| >= 2 && 0.0 <= q <= 100.0
    ensures var lo := (Position(|s|, q)).Floor;
            && 0 <= lo < |s|
            && s[lo] <= Percentile(s, q)
            && Percentile(s, q) <= (if lo + 1 < |s| then s[lo + 1] else s[lo])
  {
    PositionInRange(|s|, q);
    var pos := Position(|s|, q);
    var lo := pos.Floor;
    if lo + 1 < |s| {
      assert s[lo] <= s[lo + 1];
      Interpolation(s[lo], s[lo + 1], pos - lo as real);
    }
  }

  lemma PercentileInRange(s: seq<real>, q: real)
    requires NonDecreasing(s) && s != [] && 0.0 <= q <= 100.0
    ensures s[0] <= Percentile(s, q) <= s[|s| - 1]
  {
    if |s| >= 2 {
      PercentileBrackets(s, q);
    }
  }

  lemma ScaleOrdered(x: real, y: real, z: real)
    requires x <= y && z >= 0.0
    ensures x * z <= y * z
  {
    NonNegativeProduct(y - x, z);
    assert (y - x) * z == y * z - x * z;
  }

  lemma SameCellMonotone(a: real, b: real, lo: int, x: real, y: real)
    requires a <= b && x <= y
    ensures a + (x - lo as real) * (b - a) <= a + (y - lo as real) * (b - a)
  {
    ScaleOrdered(x - lo as real, y - lo as real, b - a);
  }

  lemma PositionsOrdered(n: nat, p: real, q: real)
    requires n >= 2 && p <= q
    ensures Position(n, p) <= Position(n, q)
  {
    ScaleOrdered(p / 100.0, q / 100.0, (n - 1) as real);
  }

  lemma PercentileIsMonotone(s: seq<real>, p: real, q: real)
    requires NonDecreasing(s) && 0.0 <= p <= q <= 100.0
    ensures Percentile(s, p) <= Percentile(s, q)
  {
    if |s| >= 2 {
      PercentileBrackets(s, p);
      PercentileBrackets(s, q);
      PositionsOrdered(|s|, p, q);
      var x, y := Position(|s|, p), Position(|s|, q);
      var lo, hi := x.Floor, y.Floor;
      assert lo <= hi;
      if lo < hi {
        assert s[lo + 1] <= s[hi];
      } else if lo + 1 < |s| {
        assert s[lo] <= s[lo + 1];
        SameCellMonotone(s[lo], s[lo + 1], lo, x, y);
      }
    }
  }

  lemma {:induction false} SizesAreSorted(sizes: seq<real>)
    ensures NonDecreasing(Sort(Leq, sizes))
  {
    OrdersAreOrders();
    SortIsSorted(Leq, sizes);
    var s := Sort(Leq, sizes);
    forall i, j | 0 <= i < j < |s| ensures s[i] <= s[j] {
      assert Leq(s[i], s[j]);
    }
  }

  /** What a reader of a feature vector may rely on, for every non-empty packet list. */
  ghost predicate Consistent(f: Features, n: nat) {
    && f.pktTotal == n
    && f.durationSec >= 0.0
    && 11 * f.burstCount <= n
    && f.sizeP10 <= f.sizeP90
    && (n > 1 ==> f.iatMeanMs * ((n - 1) as real) == f.durationSec * 1000.0)
    && (f.durationSec > 0.0 ==> f.ratePps * f.durationSec == n as real)
  }

  lemma QuotientTimes(x: real, y: real)
    requires y != 0.0
    ensures (x / y) * y == x
  {
  }

  lemma BurstLimit(times: seq<real>)
    requires NonDecreasing(times)
    ensures 11 * |Bursts(times)| <= |times|
  {
    BurstsAreDenseRuns(times);
  }

  lemma MeanGapTimesCount(times: seq<real>)
    requires |times| > 1
    ensures MeanOrZero(GapsMs(times)) * ((|times| - 1) as real) == (times[|times| - 1] - times[0]) * 1000.0
  {
    GapsAddUp(times);
    QuotientTimes(Sum(GapsMs(times)), (|times| - 1) as real);
  }

  lemma RateTimesDuration(n: nat, duration: real)
    requires duration > 0.0
    ensures Rate(n, duration) * duration == n as real
  {
    QuotientTimes(n as real, duration);
  }

  lemma ConsistentFrom(times: seq<real>, f: Features)
    requires times != [] && NonDecreasing(times)
    requires f.pktTotal == |times| && f.durationSec == times[|times| - 1] - times[0]
    requires f.burstCount == |Bursts(times)| && f.sizeP10 <= f.sizeP90
    requires f.iatMeanMs == MeanOrZero(GapsMs(times)) && f.ratePps == Rate(|times|, f.durationSec)
    ensures Consistent(f, |times|)
  {
    BurstLimit(times);
    if |times| > 1 {
      MeanGapTimesCount(times);
    }
    if f.durationSec > 0.0 {
      RateTimesDuration(|times|, f.durationSec);
    }
  }

  lemma CombinedIsConsistent(times: seq<real>, sizeSum: real, sizeVariance: real, p10: real, p90: real,
                             up: real, down: real, burstVariance: real)
    requires times != [] && NonDecreasing(times) && p10 <= p90
    ensures Consistent(Combined(times, sizeSum, sizeVariance, p10, p90, up, down, burstVariance), |times|)
  {
    ConsistentFrom(times, Combined(times, sizeSum, sizeVariance, p10, p90, up, down, burstVariance));
  }

  lemma FeatureVectorIsConsistent(packets: seq<Packet>)
    requires packets != []
    ensures Consistent(FeatureVector(packets), |packets|)
  {
    var pkts := Sort(Earlier, packets);
    TimesAreSorted(packets);
    SizesAreSorted(Sizes(pkts));
    var bySize := Sort(Leq, Sizes(pkts));
    PercentileIsMonotone(bySize, 10.0, 90.0);
    CombinedIsConsistent(Times(pkts), Sum(Sizes(pkts)), Variance(Sizes(pkts)),
                         Percentile(bySize, 10.0), Percentile(bySize, 90.0),
                         Sum(SizesUp(pkts)), Sum(SizesDown(pkts)),
                         Variance(SizesInBursts(pkts, Bursts(Times(pkts)))));
  }

  // ---------------------------------------------------------------------------
  // What each feature is, in terms of the packets given
  // ---------------------------------------------------------------------------

  /** Bytes of the packets sent the initiator's way, and of those sent back. */
  function BytesUp(packets: seq<Packet>): int {
    if packets == [] then 0
    else (if packets[0].direction >= 0 then packets[0].size else 0) + BytesUp(packets[1..])
  }

  function BytesDown(packets: seq<Packet>): int {
    if packets == [] then 0
    else (if packets[0].direction < 0 then packets[0].size else 0) + BytesDown(packets[1..])
  }

  lemma {:induction false} SumsAreBytes(packets: seq<Packet>)
    ensures Sum(SizesUp(packets)) == BytesUp(packets) as real
    ensures Sum(SizesDown(packets)) == BytesDown(packets) as real
  {
    if packets != [] {
      SumsAreBytes(packets[1..]);
      assert SizesUp(packets)[1..] == SizesUp(packets[1..]);
      assert SizesDown(packets)[1..] == SizesDown(packets[1..]);
    }
  }

  /** The fields of a vector made from these values, group by group. */
  ghost predicate SizeFields(f: Features, n: nat, sizeSum: real, sizeVariance: real, p10: real, p90: real)
    requires n > 0
  {
    f.sizeMean == sizeSum / (n as real) && f.sizeVariance == sizeVariance && f.sizeP10 == p10 && f.sizeP90 == p90
  }

  ghost predicate TimeFields(f: Features, times: seq<real>)
    requires times != []
  {
    var duration := times[|times| - 1] - times[0];
    && f.iatMeanMs == MeanOrZero(GapsMs(times)) && f.iatVarianceMs == Variance(GapsMs(times))
    && f.durationSec == duration && f.pktTotal == |times| && f.ratePps == Rate(|times|, duration)
  }

  ghost predicate BurstFields(f: Features, bursts: seq<Interval>, burstVariance: real) {
    f.burstCount == |bursts| && f.burstGapRatio == GapRatio(bursts) && f.payloadVarianceInBursts == burstVariance
  }

  lemma CombinedFields(times: seq<real>, sizeSum: real, sizeVariance: real, p10: real, p90: real,
                       up: real, down: real, burstVariance: real)
    requires times != []
    ensures var f := Combined(times, sizeSum, sizeVariance, p10, p90, up, down, burstVariance);
            && SizeFields(f, |times|, sizeSum, sizeVariance, p10, p90)
            && f.dirRatio == DirRatio(up, down, |times|)
            && TimeFields(f, times) && BurstFields(f, Bursts(times), burstVariance)
  {
  }

  lemma SameCount(packets: seq<Packet>)
    ensures |Sort(Earlier, packets)| == |packets| && multiset(Sort(Earlier, packets)) == multiset(packets)
  {
    assert |multiset(Sort(Earlier, packets))| == |multiset(packets)|;
  }

  lemma VectorFields(packets: seq<Packet>)
    requires packets != []
    ensures var pkts := Sort(Earlier, packets);
            var f := FeatureVector(packets);
            var bySize := Sort(Leq, Sizes(pkts));
            && pkts != []
            && SizeFields(f, |pkts|, Sum(Sizes(pkts)), Variance(Sizes(pkts)),
                          Percentile(bySize, 10.0), Percentile(bySize, 90.0))
            && f.dirRatio == DirRatio(Sum(SizesUp(pkts)), Sum(SizesDown(pkts)), |pkts|)
            && TimeFields(f, Times(pkts))
            && BurstFields(f, Bursts(Times(pkts)), Variance(SizesInBursts(pkts, Bursts(Times(pkts)))))
  {
    SameCount(packets);
    var pkts := Sort(Earlier, packets);
    var times, sizes := Times(pkts), Sizes(pkts);
    var bySize := Sort(Leq, sizes);
    CombinedFields(times, Sum(sizes), Variance(sizes), Percentile(bySize, 10.0), Percentile(bySize, 90.0),
                   Sum(SizesUp(pkts)), Sum(SizesDown(pkts)), Variance(SizesInBursts(pkts, Bursts(times))));
  }

  lemma DirRatioFacts(up: real, down: real, n: nat)
    ensures down != 0.0 ==> DirRatio(up, down, n) * down == up
    ensures down == 0.0 && up != 0.0 ==> DirRatio(up, down, n) == n as real
    ensures down == 0.0 && up == 0.0 ==> DirRatio(up, down, n) == 0.0
  {
    if down != 0.0 {
      QuotientTimes(up, down);
    }
  }

  lemma BytesOfSorted(packets: seq<Packet>)
    ensures var pkts := Sort(Earlier, packets);
            Sum(SizesUp(pkts)) == BytesUp(packets) as real && Sum(SizesDown(pkts)) == BytesDown(packets) as real
  {
    SameCount(packets);
    SameDirections(Sort(Earlier, packets), packets);
    SumsAreBytes(packets);
  }

  /** The ratio is bytes up over bytes down, the packet count when only upward bytes exist, and zero
      without any. */
  ghost predicate IsDirRatio(ratio: real, packets: seq<Packet>) {
    var up, down := BytesUp(packets) as real, BytesDown(packets) as real;
    && (down != 0.0 ==> ratio * down == up)
    && (down == 0.0 && up != 0.0 ==> ratio == |packets| as real)
    && (down == 0.0 && up == 0.0 ==> ratio == 0.0)
  }

  lemma DirRatioIs(up: real, down: real, n: nat, packets: seq<Packet>)
    requires up == BytesUp(packets) as real && down == BytesDown(packets) as real && n == |packets|
    ensures IsDirRatio(DirRatio(up, down, n), packets)
  {
    DirRatioFacts(up, down, n);
  }

  lemma DirRatioFrom(packets: seq<Packet>)
    ensures var pkts := Sort(Earlier, packets);
            IsDirRatio(DirRatio(Sum(SizesUp(pkts)), Sum(SizesDown(pkts)), |pkts|), packets)
  {
    SameCount(packets);
    BytesOfSorted(packets);
    var pkts := Sort(Earlier, packets);
    DirRatioIs(Sum(SizesUp(pkts)), Sum(SizesDown(pkts)), |pkts|, packets);
  }

  /** The squared distances from `m`, added up. */
  function SquaresAbout(xs: seq<real>, m: real): real {
    if xs == [] then 0.0 else Square(xs[0] - m) + SquaresAbout(xs[1..], m)
  }

  lemma MappedFirst(f: real -> real, xs: seq<real>)
    requires xs != []
    ensures Sum(Mapped(f, xs)) == f(xs[0]) + Sum(Mapped(f, xs[1..]))
  {
    assert Mapped(f, xs)[0] == f(xs[0]) && Mapped(f, xs)[1..] == Mapped(f, xs[1..]);
  }

  lemma {:induction false} MappedSquares(xs: seq<real>, m: real)
    ensures Sum(Mapped(SquareFrom(m), xs)) == SquaresAbout(xs, m)
  {
    if xs != [] {
      MappedSquares(xs[1..], m);
      MappedFirst(SquareFrom(m), xs);
    }
  }

  /** `v` is the population variance of `xs`, taken as zero below two values. */
  ghost predicate IsVariance(v: real, xs: seq<real>) {
    if |xs| <= 1 then v == 0.0
    else exists mean :: mean * (|xs| as real) == Sum(xs) && v * (|xs| as real) == SquaresAbout(xs, mean)
  }

  lemma VarianceMeans(xs: seq<real>)
    ensures IsVariance(Variance(xs), xs)
  {
    if |xs| > 1 {
      var m, n := Mean(xs), |xs| as real;
      MappedSquares(xs, m);
      QuotientTimes(Sum(xs), n);
      QuotientTimes(SquaresAbout(xs, m), n);
      var squares := Mapped(SquareFrom(m), xs);
      assert Variance(xs) == Sum(squares) / n;
    }
  }

  lemma VarianceOfArrangement(v: real, xs: seq<real>, ys: seq<real>)
    requires multiset(xs) == multiset(ys) && v == Variance(xs)
    ensures IsVariance(v, ys)
  {
    VarianceForgetsOrder(xs, ys);
    VarianceMeans(ys);
  }

  /** The sizes of the packets that satisfy `keep`. */
  function SizesOf(packets: seq<Packet>, keep: Packet -> bool): seq<real> {
    if packets == [] then []
    else (if keep(packets[0]) then [packets[0].size as real] else []) + SizesOf(packets[1..], keep)
  }

  function During(bursts: seq<Interval>): Packet -> bool {
    (p: Packet) => exists k :: 0 <= k < |bursts| && bursts[k].start <= p.time <= bursts[k].end
  }

  lemma {:induction false} BurstSizesAreSizes(packets: seq<Packet>, bursts: seq<Interval>)
    ensures SizesInBursts(packets, bursts) == SizesOf(packets, During(bursts))
  {
    if packets != [] {
      BurstSizesAreSizes(packets[1..], bursts);
    }
  }

  /** `t` is the packet times in ascending order. */
  ghost predicate Ascending(t: seq<real>, packets: seq<Packet>) {
    NonDecreasing(t) && multiset(t) == multiset(Times(packets))
  }

  lemma SortedTimes(packets: seq<Packet>, t: seq<real>)
    requires Ascending(t, packets)
    ensures t == Times(Sort(Earlier, packets)) && |t| == |packets|
  {
    var pkts := Sort(Earlier, packets);
    TimesAreSorted(packets);
    MappedMultiset((p: Packet) => p.time, pkts, packets);
    OrdersAreOrders();
    assert Sorted(Leq, t) && Sorted(Leq, Times(pkts));
    SortedIsUnique(Leq, t, Times(pkts));
    assert |multiset(pkts)| == |multiset(packets)|;
  }

  lemma SortedSizes(packets: seq<Packet>, s: seq<real>)
    requires NonDecreasing(s) && multiset(s) == multiset(Sizes(packets))
    ensures s == Sort(Leq, Sizes(Sort(Earlier, packets)))
  {
    var pkts := Sort(Earlier, packets);
    OrdersAreOrders();
    MappedMultiset((p: Packet) => p.size as real, pkts, packets);
    SortIsSorted(Leq, Sizes(pkts));
    assert Sorted(Leq, s);
    SortedIsUnique(Leq, s, Sort(Leq, Sizes(pkts)));
  }

  lemma TotalBytes(packets: seq<Packet>)
    ensures Sum(Sizes(packets)) == (BytesUp(packets) + BytesDown(packets)) as real
  {
    SumsAreBytes(packets);
    BytesAddUp(packets);
  }

  /** The features of the sizes, which are `s` in ascending order: mean, variance, two percentiles. */
  ghost predicate SizeFeatures(f: Features, packets: seq<Packet>, s: seq<real>) {
    && f.sizeMean * (|packets| as real) == (BytesUp(packets) + BytesDown(packets)) as real
    && IsVariance(f.sizeVariance, s)
    && f.sizeP10 == Percentile(s, 10.0) && f.sizeP90 == Percentile(s, 90.0)
  }

  lemma SizesFrom(f: Features, packets: seq<Packet>, s: seq<real>)
    requires packets != [] && NonDecreasing(s) && multiset(s) == multiset(Sizes(packets))
    requires var pkts := Sort(Earlier, packets);
             var bySize := Sort(Leq, Sizes(pkts));
             pkts != [] && SizeFields(f, |pkts|, Sum(Sizes(pkts)), Variance(Sizes(pkts)),
                                      Percentile(bySize, 10.0), Percentile(bySize, 90.0))
    ensures SizeFeatures(f, packets, s)
  {
    var pkts := Sort(Earlier, packets);
    SameCount(packets);
    SortedSizes(packets, s);
    SameSizeStatistics(pkts, packets);
    TotalBytes(packets);
    VarianceOfArrangement(Variance(Sizes(packets)), Sizes(packets), s);
    SizeFieldsMean(f, packets, s, Sum(Sizes(pkts)), Variance(Sizes(pkts)));
  }

  lemma SizeFieldsMean(f: Features, packets: seq<Packet>, s: seq<real>, sum: real, variance: real)
    requires packets != [] && sum == (BytesUp(packets) + BytesDown(packets)) as real && IsVariance(variance, s)
    requires SizeFields(f, |packets|, sum, variance, Percentile(s, 10.0), Percentile(s, 90.0))
    ensures SizeFeatures(f, packets, s)
  {
    MeanFrom(f.sizeMean, sum, |packets|);
  }

  lemma MeanFrom(mean: real, sum: real, n: nat)
    requires n > 0 && mean == sum / (n as real)
    ensures mean * (n as real) == sum
  {
    QuotientTimes(sum, n as real);
  }

  lemma RateFacts(n: nat, duration: real)
    ensures duration > 0.0 ==> Rate(n, duration) * duration == n as real
    ensures duration <= 0.0 ==> Rate(n, duration) == 0.0
  {
    if duration > 0.0 {
      RateTimesDuration(n, duration);
    }
  }

  lemma GapFacts(t: seq<real>)
    requires t != []
    ensures |t| > 1 ==> MeanOrZero(GapsMs(t)) * ((|t| - 1) as real) == (t[|t| - 1] - t[0]) * 1000.0
    ensures |t| == 1 ==> MeanOrZero(GapsMs(t)) == 0.0
    ensures IsVariance(Variance(GapsMs(t)), GapsInMs(t))
  {
    assert GapsInMs(t) == GapsMs(t);
    VarianceMeans(GapsMs(t));
    if |t| > 1 {
      MeanGapTimesCount(t);
    }
  }

  /** The gaps between consecutive times, in milliseconds. */
  function GapsInMs(t: seq<real>): seq<real>
    requires t != []
  {
    seq(|t| - 1, k requires 0 <= k < |t| - 1 => 1000.0 * (t[k + 1] - t[k]))
  }

  /** The features of the times, which are `t` in order: duration, rate, and the gaps' mean and variance. */
  ghost predicate TimeFeatures(f: Features, t: seq<real>)
    requires t != []
  {
    var n := |t|;
    && f.pktTotal == n && f.durationSec == t[n - 1] - t[0]
    && (f.durationSec > 0.0 ==> f.ratePps * f.durationSec == n as real)
    && (f.durationSec <= 0.0 ==> f.ratePps == 0.0)
    && (n > 1 ==> f.iatMeanMs * ((n - 1) as real) == f.durationSec * 1000.0)
    && (n == 1 ==> f.iatMeanMs == 0.0)
    && IsVariance(f.iatVarianceMs, GapsInMs(t))
  }

  lemma TimesFrom(f: Features, packets: seq<Packet>, t: seq<real>)
    requires packets != [] && Ascending(t, packets)
    requires Sort(Earlier, packets) != [] && TimeFields(f, Times(Sort(Earlier, packets)))
    ensures t != [] && |t| == |packets| && TimeFeatures(f, t)
  {
    SortedTimes(packets, t);
    TimeFieldsMean(f, t);
  }

  lemma TimeFieldsMean(f: Features, t: seq<real>)
    requires t != [] && TimeFields(f, t)
    ensures TimeFeatures(f, t)
  {
    GapFacts(t);
    RateFacts(|t|, f.durationSec);
  }

  function TotalLength(w: seq<Interval>): real {
    if w == [] then 0.0 else (w[0].end - w[0].start) + TotalLength(w[1..])
  }

  lemma {:induction false} DurationsAddUp(w: seq<Interval>)
    ensures Sum(Durations(w)) == TotalLength(w)
  {
    if w != [] {
      DurationsAddUp(w[1..]);
      assert Durations(w)[1..] == Durations(w[1..]);
    }
  }

  lemma {:induction false} BurstGapsAddUp(w: seq<Interval>)
    requires w != []
    ensures Sum(GapsBetween(w)) == (w[|w| - 1].end - w[0].start) - TotalLength(w)
  {
    if |w| > 1 {
      BurstGapsAddUp(w[1..]);
      assert GapsBetween(w)[1..] == GapsBetween(w[1..]);
    } else {
      assert w[1..] == [];
    }
  }

  lemma RatioOfMeans(d: real, g: real, m: real, k: real)
    requires m > 0.0 && k > 0.0 && g > 0.0
    ensures var ratio := (d / m) / (g / k); g / k > 0.0 && ratio * g * m == d * k
  {
    var a, b := d / m, g / k;
    PositiveQuotient(g, k);
    QuotientTimes(a, b);
    var ratio := a / b;
    assert ratio * b == a;
    QuotientTimes(d, m);
    QuotientTimes(g, k);
    assert ratio * g * m == ratio * (b * k) * m == (ratio * b) * k * m == a * k * m == (a * m) * k == d * k;
  }

  /** The time inside bursts over the time between them, each per burst or gap; the number of bursts below
      two. */
  ghost predicate IsGapRatio(ratio: real, w: seq<Interval>) {
    if |w| <= 1 then ratio == |w| as real
    else
      ratio * (w[|w| - 1].end - w[0].start - TotalLength(w)) * (|w| as real) == TotalLength(w) * ((|w| - 1) as real)
  }

  lemma GapRatioOfMany(w: seq<Interval>, d: real, g: real)
    requires |w| > 1 && g > 0.0 && d == TotalLength(w)
    requires g == w[|w| - 1].end - w[0].start - TotalLength(w)
    ensures IsGapRatio((d / (|w| as real)) / (g / ((|w| - 1) as real)), w)
  {
    RatioOfMeans(d, g, |w| as real, (|w| - 1) as real);
  }

  lemma GapRatioMeans(t: seq<real>)
    requires NonDecreasing(t)
    ensures IsGapRatio(GapRatio(Bursts(t)), Bursts(t))
  {
    var w := Bursts(t);
    if |w| > 1 {
      GapRatioIsRealRatio(t);
      DurationsAddUp(w);
      BurstGapsAddUp(w);
      GapsArePositive(t);
      SumOfPositive(GapsBetween(w));
      GapRatioOfMany(w, TotalLength(w), Sum(GapsBetween(w)));
    } else if |w| == 1 {
      assert GapsBetween(w) == [];
    }
  }

  /** The features of the bursts `w`: their number, the ratio of their mean length to the mean gap between
      them, and the variance of the sizes of the packets inside them. */
  ghost predicate BurstFeatures(f: Features, packets: seq<Packet>, w: seq<Interval>) {
    && f.burstCount == |w| && IsGapRatio(f.burstGapRatio, w)
    && IsVariance(f.payloadVarianceInBursts, SizesOf(packets, During(w)))
  }

  lemma BurstsFrom(f: Features, packets: seq<Packet>, t: seq<real>)
    requires packets != [] && Ascending(t, packets)
    requires var pkts := Sort(Earlier, packets);
             BurstFields(f, Bursts(Times(pkts)), Variance(SizesInBursts(pkts, Bursts(Times(pkts)))))
    ensures BurstFeatures(f, packets, Bursts(t))
  {
    SortedTimes(packets, t);
    GapRatioMeans(t);
    BurstVarianceMeans(packets, Bursts(t));
  }

  /** Main result on the vector.  For every packet list, each of its features is what its name says, in
      terms of the packets given, their times `t` in order and their sizes `s` in order. */
  lemma FeatureVectorMeans(packets: seq<Packet>, t: seq<real>, s: seq<real>)
    requires packets != [] && Ascending(t, packets)
    requires NonDecreasing(s) && multiset(s) == multiset(Sizes(packets))
    ensures IsDirRatio(FeatureVector(packets).dirRatio, packets)
    ensures SizeFeatures(FeatureVector(packets), packets, s)
    ensures t != [] && |t| == |packets| && TimeFeatures(FeatureVector(packets), t)
    ensures BurstFeatures(FeatureVector(packets), packets, Bursts(t))
  {
    VectorFields(packets);
    DirRatioFrom(packets);
    SizesFrom(FeatureVector(packets), packets, s);
    TimesFrom(FeatureVector(packets), packets, t);
    BurstsFrom(FeatureVector(packets), packets, t);
  }

  lemma BurstVarianceMeans(packets: seq<Packet>, w: seq<Interval>)
    ensures IsVariance(Variance(SizesInBursts(Sort(Earlier, packets), w)), SizesOf(packets, During(w)))
  {
    var pkts := Sort(Earlier, packets);
    SameCount(packets);
    BurstSizesForgetOrder(pkts, packets, w);
    BurstSizesAreSizes(packets, w);
    VarianceOfArrangement(Variance(SizesInBursts(pkts, w)), SizesInBursts(pkts, w), SizesOf(packets, During(w)));
  }

  lemma EmptyFlow()
    ensures var f := FeatureVector([]);
            f.pktTotal == 0 && f.burstCount == 0 && f.sizeMean == f.durationSec == f.ratePps == f.dirRatio == 0.0
  {
  }

  /** The percentile at the position of an order statistic is that order statistic, and between two
      neighbours it rises in proportion. */
  lemma PercentileMeans(s: seq<real>, q: real, k: nat, part: real)
    requires |s| >= 2 && k + 1 < |s| && 0.0 <= part < 1.0 && 0.0 <= q <= 100.0
    requires q / 100.0 * ((|s| - 1) as real) == k as real + part
    ensures Percentile(s, q) == s[k] + part * (s[k + 1] - s[k])
  {
    var pos := Position(|s|, q);
    assert pos == k as real + part;
    assert pos.Floor == k;
  }

  lemma PercentileAtTheEnd(s: seq<real>)
    requires s != []
    ensures Percentile(s, 100.0) == s[|s| - 1]
  {
    if |s| > 1 {
      assert Position(|s|, 100.0) == (|s| - 1) as real;
    }
  }
}
