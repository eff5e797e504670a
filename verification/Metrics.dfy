/** The consumer's accounts: how many of the sequence ids between the lowest and the highest
    recorded never came, and how long the others took. */
module Metrics {
  import opened Counting

  datatype Sample = Sample(seqId: nat, latency: nat)

  // Rates and means are real numbers.
  datatype Report = Report(
    received: nat, expected: nat, dropped: nat, dropRate: real, overflow: nat,
    latMin: nat, latMean: real, latMax: nat,
    p01: nat, p50: nat, p99: nat, p999: nat, p9999: nat)

  // ---------- Sequence ids ----------

  // lo and hi are the least and the greatest of the recorded ids.
  predicate Spans(ids: seq<nat>, lo: nat, hi: nat) {
    lo in ids && hi in ids && Within(ids, lo, hi)
  }

  lemma SpansAreUnique(ids: seq<nat>, lo: nat, hi: nat, lo': nat, hi': nat)
    requires Spans(ids, lo, hi) && Spans(ids, lo', hi')
    ensures lo == lo' && hi == hi'
  {
    var i, j :| 0 <= i < |ids| && ids[i] == lo && 0 <= j < |ids| && ids[j] == lo';
    var k, m :| 0 <= k < |ids| && ids[k] == hi && 0 <= m < |ids| && ids[m] == hi';
  }

  lemma SpansSnoc(ids: seq<nat>, lo: nat, hi: nat, id: nat)
    requires Spans(ids, lo, hi)
    ensures Spans(ids + [id], if id < lo then id else lo, if id > hi then id else hi)
  {
    var more := ids + [id];
    assert more[|ids|] == id;
    assert forall x :: x in ids ==> x in more;
  }

  function Dropped(received: nat, lo: nat, hi: nat): nat
    requires lo <= hi
  {
    var expected := hi - lo + 1;
    if expected > received then expected - received else 0
  }

  lemma {:induction false} ElementsBound(s: seq<nat>)
    ensures |Elements(s)| <= |s|
    ensures |Elements(s)| == |s| ==> Distinct(s)
  {
    if s == [] {
    } else {
      var init, last := s[..|s| - 1], s[|s| - 1];
      ElementsBound(init);
      assert s == init + [last];
      assert Elements(s) == Elements(init) + {last};
      if last in init {
        assert Elements(s) == Elements(init);
      }
    }
  }

  lemma AbsentSize(ids: seq<nat>, lo: nat, hi: nat)
    requires lo <= hi && Within(ids, lo, hi)
    ensures |Absent(ids, lo, hi)| == hi - lo + 1 - |Elements(ids)|
  {
    IntervalSize(lo, hi);
    assert Elements(ids) <= Interval(lo, hi);
    assert Interval(lo, hi) == Absent(ids, lo, hi) + Elements(ids);
  }

  // The dropped count never claims more than is missing; it is the number of ids missing
  // exactly when no id came twice or nothing is missing.
  lemma DroppedIsExact(ids: seq<nat>, lo: nat, hi: nat)
    requires Spans(ids, lo, hi)
    ensures Dropped(|ids|, lo, hi) <= |Absent(ids, lo, hi)|
    ensures Dropped(|ids|, lo, hi) == |Absent(ids, lo, hi)| <==> Distinct(ids) || Absent(ids, lo, hi) == {}
    ensures Distinct(ids) ==> |ids| <= hi - lo + 1
  {
    AbsentSize(ids, lo, hi);
    ElementsBound(ids);
    if Distinct(ids) {
      ElementsSize(ids);
    }
  }

  // ---------- Latencies ----------

  predicate Sorted(s: seq<nat>) {
    forall i, j :: 0 <= i < j < |s| ==> s[i] <= s[j]
  }

  // How many of s are at most v.
  function UpTo(s: seq<nat>, v: nat): (c: nat)
    ensures c <= |s|
  {
    if s == [] then 0 else UpTo(s[..|s| - 1], v) + if s[|s| - 1] <= v then 1 else 0
  }

  // std::sort, as a function.
  function Insert(s: seq<nat>, x: nat): seq<nat> {
    if s == [] || s[|s| - 1] <= x then s + [x] else Insert(s[..|s| - 1], x) + [s[|s| - 1]]
  }

  function Sort(s: seq<nat>): seq<nat> {
    if s == [] then [] else Insert(Sort(s[..|s| - 1]), s[|s| - 1])
  }

  lemma UpToSnoc(s: seq<nat>, x: nat, v: nat)
    ensures UpTo(s + [x], v) == UpTo(s, v) + if x <= v then 1 else 0
  {
    assert (s + [x])[..|s|] == s;
  }

  lemma {:induction false} InsertSorted(s: seq<nat>, x: nat)
    requires Sorted(s)
    ensures Sorted(Insert(s, x)) && |Insert(s, x)| == |s| + 1
    ensures forall y :: y in Insert(s, x) <==> y == x || y in s
  {
    if s == [] || s[|s| - 1] <= x {
    } else {
      var init, last := s[..|s| - 1], s[|s| - 1];
      InsertSorted(init, x);
      var t := Insert(init, x);
      assert s == init + [last];
      forall i | 0 <= i < |t| ensures t[i] <= last {
        assert t[i] in t;
      }
    }
  }

  lemma {:induction false} InsertCounts(s: seq<nat>, x: nat, v: nat)
    ensures UpTo(Insert(s, x), v) == UpTo(s, v) + if x <= v then 1 else 0
  {
    if s == [] || s[|s| - 1] <= x {
      UpToSnoc(s, x, v);
    } else {
      InsertCounts(s[..|s| - 1], x, v);
      UpToSnoc(Insert(s[..|s| - 1], x), s[|s| - 1], v);
    }
  }

  lemma {:induction false} SortIsSorted(s: seq<nat>)
    ensures Sorted(Sort(s)) && |Sort(s)| == |s|
    ensures forall y :: y in Sort(s) <==> y in s
  {
    if s == [] {
    } else {
      SortIsSorted(s[..|s| - 1]);
      InsertSorted(Sort(s[..|s| - 1]), s[|s| - 1]);
      assert s == s[..|s| - 1] + [s[|s| - 1]];
    }
  }

  lemma {:induction false} SortCounts(s: seq<nat>, v: nat)
    ensures UpTo(Sort(s), v) == UpTo(s, v)
  {
    if s == [] {
    } else {
      SortCounts(s[..|s| - 1], v);
      InsertCounts(Sort(s[..|s| - 1]), s[|s| - 1], v);
    }
  }

  // In a sorted sequence the count and the position determine each other.
  lemma {:induction false} UpToSorted(s: seq<nat>, r: nat, v: nat)
    requires Sorted(s) && r < |s|
    ensures s[r] <= v ==> UpTo(s, v) >= r + 1
    ensures v < s[r] ==> UpTo(s, v) <= r
  {
    var init := s[..|s| - 1];
    if r < |s| - 1 {
      UpToSorted(init, r, v);
      assert s[r] <= s[|s| - 1];
    } else if r > 0 {
      UpToSorted(init, r - 1, v);
    } else {
      assert init == [];
    }
  }

  lemma PartOf(p: real, n: real)
    requires 0.0 <= p <= 1.0 && n >= 0.0
    ensures 0.0 <= p * n <= n
  {
    assert (1.0 - p) * n >= 0.0;
  }

  // The rank of the quantile p among n samples, for p a real number.
  function Rank(n: nat, p: real): (rank: nat)
    requires n > 0 && 0.0 <= p <= 1.0
    ensures 1 <= rank <= n && rank as real >= p * n as real
    ensures rank > 1 ==> (rank - 1) as real < p * n as real
  {
    var exact := p * n as real;
    PartOf(p, n as real);
    var rank := exact.Floor;
    var ceiling := if rank as real < exact then rank + 1 else rank;
    if ceiling < 1 then 1 else if ceiling > n then n else ceiling
  }

  function Percentile(sorted: seq<nat>, p: real): nat
    requires 0.0 <= p <= 1.0
  {
    if sorted == [] then 0 else sorted[Rank(|sorted|, p) - 1]
  }

  // v is the least of the samples that at least the part p of them do not exceed.
  predicate Quantile(samples: seq<nat>, p: real, v: nat) {
    && v in samples
    && UpTo(samples, v) as real >= p * |samples| as real
    && forall i :: 0 <= i < |samples| && samples[i] < v ==>
         (UpTo(samples, samples[i]) as real) < p * |samples| as real
  }

  lemma PercentileReached(samples: seq<nat>, r: nat)
    requires r < |samples|
    ensures |Sort(samples)| == |samples| && Sort(samples)[r] in samples
    ensures UpTo(samples, Sort(samples)[r]) >= r + 1
  {
    var s := Sort(samples);
    SortIsSorted(samples);
    assert s[r] in s;
    SortCounts(samples, s[r]);
    UpToSorted(s, r, s[r]);
  }

  lemma PercentileLeast(samples: seq<nat>, r: nat, x: nat)
    requires r < |samples| == |Sort(samples)| && x < Sort(samples)[r]
    ensures UpTo(samples, x) <= r
    ensures x in samples ==> r > 0
  {
    var s := Sort(samples);
    SortIsSorted(samples);
    SortCounts(samples, x);
    UpToSorted(s, r, x);
    if x in samples {
      var k :| 0 <= k < |s| && s[k] == x;
    }
  }

  lemma PercentileIsQuantile(samples: seq<nat>, p: real)
    requires samples != [] && 0.0 <= p <= 1.0
    ensures Quantile(samples, p, Percentile(Sort(samples), p))
  {
    SortIsSorted(samples);
    var r := Rank(|samples|, p);
    PercentileReached(samples, r - 1);
    var v := Percentile(Sort(samples), p);
    forall i | 0 <= i < |samples| && samples[i] < v
      ensures (UpTo(samples, samples[i]) as real) < p * |samples| as real
    {
      PercentileLeast(samples, r - 1, samples[i]);
    }
  }

  lemma QuantilesAreUnique(samples: seq<nat>, p: real, v: nat, w: nat)
    requires Quantile(samples, p, v) && Quantile(samples, p, w)
    ensures v == w
  {
    var i, j :| 0 <= i < |samples| && samples[i] == v && 0 <= j < |samples| && samples[j] == w;
  }

  // The least and the greatest sample are first and last after sorting.
  predicate Extremes(samples: seq<nat>, least: nat, greatest: nat) {
    least in samples && greatest in samples && Within(samples, least, greatest)
  }

  lemma SortedExtremes(samples: seq<nat>)
    requires samples != []
    ensures |Sort(samples)| == |samples|
    ensures Extremes(samples, Sort(samples)[0], Sort(samples)[|samples| - 1])
  {
    var s := Sort(samples);
    SortIsSorted(samples);
    assert s[0] in s && s[|s| - 1] in s;
    forall i | 0 <= i < |samples| ensures s[0] <= samples[i] <= s[|s| - 1] {
      assert samples[i] in s;
    }
  }

  function Sum(s: seq<nat>): nat {
    if s == [] then 0 else Sum(s[..|s| - 1]) + s[|s| - 1]
  }

  function Ratio(a: nat, b: nat): real
    requires b > 0
  {
    a as real / b as real
  }

  lemma RatioBetween(lo: nat, hi: nat, a: nat, b: nat)
    requires b > 0 && lo * b <= a <= hi * b
    ensures lo as real <= Ratio(a, b) <= hi as real
  {
    RatioAtLeast(lo, a, b);
    RatioAtMost(hi, a, b);
  }

  lemma Cancel(x: real, y: real, n: real)
    requires n > 0.0 && x * n <= y * n
    ensures x <= y
  {
    assert (y - x) * n >= 0.0;
  }

  lemma RealProduct(x: nat, n: nat)
    ensures (x * n) as real == x as real * n as real
  {
  }

  lemma RatioAtLeast(lo: nat, a: nat, b: nat)
    requires b > 0 && lo * b <= a
    ensures lo as real <= Ratio(a, b)
  {
    RealProduct(lo, b);
    Cancel(lo as real, Ratio(a, b), b as real);
  }

  lemma RatioAtMost(hi: nat, a: nat, b: nat)
    requires b > 0 && a <= hi * b
    ensures Ratio(a, b) <= hi as real
  {
    RealProduct(hi, b);
    Cancel(Ratio(a, b), hi as real, b as real);
  }

  lemma OneMore(x: nat, n: nat)
    ensures x * (n + 1) == x * n + x
  {
  }

  lemma {:induction false} SumBetween(s: seq<nat>, least: nat, greatest: nat)
    requires Within(s, least, greatest)
    ensures least * |s| <= Sum(s) <= greatest * |s|
  {
    if s == [] {
    } else {
      var n := |s| - 1;
      SumBetween(s[..n], least, greatest);
      OneMore(least, n);
      OneMore(greatest, n);
      assert |s[..n]| == n;
    }
  }

  // The mean lies between the extremes.
  lemma MeanBetween(s: seq<nat>, least: nat, greatest: nat)
    requires s != [] && Extremes(s, least, greatest)
    ensures least as real <= Ratio(Sum(s), |s|) <= greatest as real
  {
    SumBetween(s, least, greatest);
    RatioBetween(least, greatest, Sum(s), |s|);
  }

  // ---------- The accumulator ----------

  // What a report says about the ids and the stored latencies it was made from.
  ghost predicate Delivery(r: Report, ids: seq<nat>) {
    && r.received == |ids|
    && (ids == [] ==> r.expected == 0 && r.dropped == 0 && r.dropRate == 0.0)
    && (ids != [] ==> r.expected > 0 && r.dropRate == Ratio(r.dropped, r.expected))
    && (ids != [] ==> exists lo: nat, hi: nat ::
          Spans(ids, lo, hi) && r.expected == hi - lo + 1 && r.dropped == Dropped(|ids|, lo, hi))
  }

  predicate Quantiles(r: Report, kept: seq<nat>) {
    && Quantile(kept, 0.01, r.p01) && Quantile(kept, 0.50, r.p50) && Quantile(kept, 0.99, r.p99)
    && Quantile(kept, 0.999, r.p999) && Quantile(kept, 0.9999, r.p9999)
  }

  ghost predicate Reports(r: Report, ids: seq<nat>, kept: seq<nat>) {
    && Delivery(r, ids) && r.overflow + |kept| == |ids|
    && (kept != [] ==>
          && Extremes(kept, r.latMin, r.latMax) && Quantiles(r, kept)
          && r.latMean == Ratio(Sum(kept), |kept|))
    && (kept == [] ==>
          r.latMin == r.latMax == r.p01 == r.p50 == r.p99 == r.p999 == r.p9999 == 0 && r.latMean == 0.0)
  }

  // A report on ids that did not repeat counts exactly what is missing between the least
  // and the greatest of them, even where not every sample could be stored.
  lemma ReportCountsDrops(r: Report, ids: seq<nat>, lo: nat, hi: nat)
    requires Delivery(r, ids) && Distinct(ids) && Spans(ids, lo, hi)
    ensures r.expected == hi - lo + 1 == r.received + r.dropped
    ensures r.dropped == |Absent(ids, lo, hi)|
  {
    var lo': nat, hi': nat :|
      Spans(ids, lo', hi') && r.expected == hi' - lo' + 1 && r.dropped == Dropped(|ids|, lo', hi');
    SpansAreUnique(ids, lo, hi, lo', hi');
    DroppedIsExact(ids, lo, hi);
  }

  // ---------- The report in plain counts ----------

  function AtMost(s: seq<nat>, v: nat): set<nat> {
    set i: nat | i < |s| && s[i] <= v
  }

  lemma {:induction false} UpToIsCount(s: seq<nat>, v: nat)
    ensures UpTo(s, v) == |AtMost(s, v)|
  {
    if s == [] {
      assert AtMost(s, v) == {};
    } else {
      var n := |s| - 1;
      UpToIsCount(s[..n], v);
      assert AtMost(s, v) == AtMost(s[..n], v) + if s[n] <= v then {n} else {};
    }
  }

  // v is the least sample such that num out of den samples are at most v.
  predicate LeastReaching(s: seq<nat>, num: nat, den: nat, v: nat) {
    && v in s && den * |AtMost(s, v)| >= num * |s|
    && forall i :: 0 <= i < |s| && s[i] < v ==> den * |AtMost(s, s[i])| < num * |s|
  }

  lemma Hundredth(s: seq<nat>, v: nat)
    requires Quantile(s, 0.01, v)
    ensures LeastReaching(s, 1, 100, v)
  {
    UpToIsCount(s, v);
    forall i | 0 <= i < |s| && s[i] < v ensures 100 * |AtMost(s, s[i])| < 1 * |s| {
      UpToIsCount(s, s[i]);
    }
  }

  lemma Half(s: seq<nat>, v: nat)
    requires Quantile(s, 0.50, v)
    ensures LeastReaching(s, 50, 100, v)
  {
    UpToIsCount(s, v);
    forall i | 0 <= i < |s| && s[i] < v ensures 100 * |AtMost(s, s[i])| < 50 * |s| {
      UpToIsCount(s, s[i]);
    }
  }

  lemma AllButHundredth(s: seq<nat>, v: nat)
    requires Quantile(s, 0.99, v)
    ensures LeastReaching(s, 99, 100, v)
  {
    UpToIsCount(s, v);
    forall i | 0 <= i < |s| && s[i] < v ensures 100 * |AtMost(s, s[i])| < 99 * |s| {
      UpToIsCount(s, s[i]);
    }
  }

  lemma AllButThousandth(s: seq<nat>, v: nat)
    requires Quantile(s, 0.999, v)
    ensures LeastReaching(s, 999, 1000, v)
  {
    UpToIsCount(s, v);
    forall i | 0 <= i < |s| && s[i] < v ensures 1000 * |AtMost(s, s[i])| < 999 * |s| {
      UpToIsCount(s, s[i]);
    }
  }

  lemma AllButTenThousandth(s: seq<nat>, v: nat)
    requires Quantile(s, 0.9999, v)
    ensures LeastReaching(s, 9999, 10000, v)
  {
    UpToIsCount(s, v);
    forall i | 0 <= i < |s| && s[i] < v ensures 10000 * |AtMost(s, s[i])| < 9999 * |s| {
      UpToIsCount(s, s[i]);
    }
  }

  // The five quantiles of a report, by counting the samples that do not exceed them.
  lemma ReportQuantiles(r: Report, ids: seq<nat>, kept: seq<nat>)
    requires Reports(r, ids, kept) && kept != []
    ensures LeastReaching(kept, 1, 100, r.p01) && LeastReaching(kept, 50, 100, r.p50)
    ensures LeastReaching(kept, 99, 100, r.p99) && LeastReaching(kept, 999, 1000, r.p999)
    ensures LeastReaching(kept, 9999, 10000, r.p9999)
  {
    Hundredth(kept, r.p01);
    Half(kept, r.p50);
    AllButHundredth(kept, r.p99);
    AllButThousandth(kept, r.p999);
    AllButTenThousandth(kept, r.p9999);
  }

  lemma RatioTimes(a: nat, b: nat)
    requires b > 0
    ensures Ratio(a, b) * b as real == a as real
  {
  }

  // The rate times the expected count is the dropped count, ...
  lemma RateTimesExpected(r: Report, ids: seq<nat>)
    requires Delivery(r, ids) && ids != []
    ensures r.expected > 0 && r.dropRate * r.expected as real == r.dropped as real
  {
    RatioTimes(r.dropped, r.expected);
  }

  lemma MeanIsRatio(r: Report, ids: seq<nat>, kept: seq<nat>)
    requires Reports(r, ids, kept) && kept != []
    ensures r.latMean == Ratio(Sum(kept), |kept|)
  {
  }

  // ... and the mean times the number of samples is their sum.
  lemma MeanTimesCount(r: Report, kept: seq<nat>)
    requires kept != [] && r.latMean == Ratio(Sum(kept), |kept|)
    ensures r.latMean * |kept| as real == Sum(kept) as real
  {
    RatioTimes(Sum(kept), |kept|);
  }

  // The sum is that of the parts, and of a single sample the sample.
  lemma {:induction false} SumOfParts(a: seq<nat>, b: seq<nat>)
    ensures Sum(a + b) == Sum(a) + Sum(b)
    ensures forall x: nat :: Sum([x]) == x
  {
    if b == [] {
      assert a + b == a;
    } else {
      var (init, last) := (b[..|b| - 1], b[|b| - 1]);
      SumOfParts(a, init);
      assert (a + b)[..|a + b| - 1] == a + init;
    }
  }

  // The samples that find room.
  function Kept(latencies: seq<nat>, capacity: nat): seq<nat> {
    if |latencies| <= capacity then latencies else latencies[..capacity]
  }

  class Accumulator {
    const samples: array<Sample>
    var stored: nat
    var overflow: nat
    var received: nat
    var firstSeq: nat
    var lastSeq: nat
    ghost var ids: seq<nat>
    ghost var latencies: seq<nat>

    ghost predicate Valid()
      reads this, samples
    {
      && received == |ids| == |latencies| == stored + overflow
      && stored <= samples.Length && (overflow > 0 ==> stored == samples.Length)
      && (forall k :: 0 <= k < stored ==> samples[k] == Sample(ids[k], latencies[k]))
      && (ids != [] ==> Spans(ids, firstSeq, lastSeq))
    }

    constructor (capacity: nat)
      ensures Valid() && ids == [] && latencies == [] && samples.Length == capacity && fresh(samples)
    {
      samples := new Sample[capacity](_ => Sample(0, 0));
      stored, overflow, received, firstSeq, lastSeq := 0, 0, 0, 0, 0;
      ids, latencies := [], [];
    }

    method Widen(seqId: nat)
      requires received == |ids| && (ids != [] ==> Spans(ids, firstSeq, lastSeq))
      modifies this`firstSeq, this`lastSeq
      ensures Spans(ids + [seqId], firstSeq, lastSeq)
    {
      if received == 0 {
        firstSeq := seqId;
        lastSeq := seqId;
        assert ids == [] && [seqId][0] == seqId;
      } else {
        SpansSnoc(ids, firstSeq, lastSeq, seqId);
        if seqId < firstSeq {
          firstSeq := seqId;
        }
        if seqId > lastSeq {
          lastSeq := seqId;
        }
      }
    }

    method Record(seqId: nat, latency: nat)
      requires Valid()
      modifies this, samples
      ensures Valid()
      ensures ids == old(ids) + [seqId] && latencies == old(latencies) + [latency]
    {
      Widen(seqId);
      received := received + 1;
      ids, latencies := ids + [seqId], latencies + [latency];
      if stored == samples.Length {
        overflow := overflow + 1;
        return;
      }
      samples[stored] := Sample(seqId, latency);
      stored := stored + 1;
    }

    method MakeReport() returns (r: Report)
      requires Valid()
      ensures Reports(r, ids, Kept(latencies, samples.Length))
    {
      assert latencies[..stored] == Kept(latencies, samples.Length);
      r := Report(received, 0, 0, 0.0, overflow, 0, 0.0, 0, 0, 0, 0, 0, 0);
      if received == 0 {
        return;
      }
      assert firstSeq <= ids[0] <= lastSeq;
      var expected := lastSeq - firstSeq + 1;
      var dropped := if expected > received then expected - received else 0;
      r := r.(expected := expected, dropped := dropped, dropRate := Ratio(dropped, expected));
      assert Spans(ids, firstSeq, lastSeq) && r.dropped == Dropped(|ids|, firstSeq, lastSeq);
      if stored > 0 {
        r := Latencies(r);
      }
    }

    method Latencies(delivery: Report) returns (r: Report)
      requires Valid() && stored > 0
      ensures r.received == delivery.received && r.expected == delivery.expected
      ensures r.dropped == delivery.dropped && r.overflow == delivery.overflow && r.dropRate == delivery.dropRate
      ensures Extremes(latencies[..stored], r.latMin, r.latMax) && Quantiles(r, latencies[..stored])
      ensures r.latMean == Ratio(Sum(latencies[..stored]), stored)
    {
      var copied: seq<nat> := [];
      var sum := 0;
      for i := 0 to stored
        invariant copied == latencies[..i] && sum == Sum(copied)
      {
        copied := copied + [samples[i].latency];
        sum := sum + samples[i].latency;
        assert copied[..i] == latencies[..i];
      }
      var sorted := Sort(copied);
      SortedExtremes(copied);
      PercentileIsQuantile(copied, 0.01);
      PercentileIsQuantile(copied, 0.50);
      PercentileIsQuantile(copied, 0.99);
      PercentileIsQuantile(copied, 0.999);
      PercentileIsQuantile(copied, 0.9999);
      r := delivery.(latMin := sorted[0], latMean := Ratio(sum, stored),
                     latMax := sorted[|sorted| - 1],
                     p01 := Percentile(sorted, 0.01), p50 := Percentile(sorted, 0.50),
                     p99 := Percentile(sorted, 0.99), p999 := Percentile(sorted, 0.999),
                     p9999 := Percentile(sorted, 0.9999));
    }
  }
}
