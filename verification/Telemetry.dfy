/** Summary statistics of a session's samples, in reals. */
module Telemetry {
  datatype Distribution = Distribution(count: nat, min: real, avg: real, p50: real, p95: real, p99: real, max: real)

  const NO_DATA := Distribution(0, 0.0, 0.0, 0.0, 0.0, 0.0, 0.0)

  // -------------------------------------------------------------- sorting

  function Insert(x: real, s: seq<real>): seq<real> {
    if s == [] then [x]
    else if x <= s[0] then [x] + s
    else [s[0]] + Insert(x, s[1..])
  }

  function Sort(s: seq<real>): (r: seq<real>)
    ensures |r| == |s|
    decreases |s|
  {
    if s == [] then []
    else InsertLength(s[0], Sort(s[1..])); Insert(s[0], Sort(s[1..]))
  }

  lemma {:induction false} InsertLength(x: real, s: seq<real>)
    ensures |Insert(x, s)| == |s| + 1
  {
    if s != [] && x > s[0] { InsertLength(x, s[1..]); }
  }

  ghost predicate Ascending(s: seq<real>) { forall i, j | 0 <= i <= j < |s| :: s[i] <= s[j] }

  lemma {:induction false} InsertKeepsOrder(x: real, s: seq<real>)
    requires Ascending(s)
    ensures Ascending(Insert(x, s))
    ensures Insert(x, s) != [] && (Insert(x, s)[0] == x || (s != [] && Insert(x, s)[0] == s[0] < x))
  {
    if s != [] && x > s[0] {
      InsertKeepsOrder(x, s[1..]);
      FirstIsLeast(s[0], Insert(x, s[1..]));
    } else if s != [] {
      FirstIsLeast(x, s);
    }
  }

  lemma FirstIsLeast(x: real, s: seq<real>)
    requires Ascending(s) && (s != [] ==> x <= s[0])
    ensures Ascending([x] + s)
  {}

  lemma {:induction false} InsertAddsOne(x: real, s: seq<real>)
    ensures multiset(Insert(x, s)) == multiset(s) + multiset{x}
  {
    if s != [] && x > s[0] {
      InsertAddsOne(x, s[1..]);
      assert s == [s[0]] + s[1..];
    }
  }

  lemma {:induction false} SortSorts(s: seq<real>)
    ensures Ascending(Sort(s)) && multiset(Sort(s)) == multiset(s)
  {
    hide Insert, Ascending;
    if s == [] {
      NothingAscends();
    } else {
      SortSorts(s[1..]);
      InsertKeepsOrder(s[0], Sort(s[1..]));
      InsertAddsOne(s[0], Sort(s[1..]));
      assert s == [s[0]] + s[1..];
    }
  }

  lemma NothingAscends()
    ensures Ascending([])
  {}

  // ---------------------------------------------------------- percentiles

  function CountAtMost(s: seq<real>, v: real): nat {
    if s == [] then 0 else (if s[0] <= v then 1 else 0) + CountAtMost(s[1..], v)
  }

  lemma {:induction false} CountAfterInsert(x: real, s: seq<real>, v: real)
    ensures CountAtMost(Insert(x, s), v) == CountAtMost(s, v) + if x <= v then 1 else 0
  {
    if s != [] && x > s[0] {
      CountAfterInsert(x, s[1..], v);
    } else {
      assert ([x] + s)[1..] == s;
    }
  }

  lemma {:induction false} CountAfterSort(s: seq<real>, v: real)
    ensures CountAtMost(Sort(s), v) == CountAtMost(s, v)
  {
    if s != [] {
      CountAfterSort(s[1..], v);
      CountAfterInsert(s[0], Sort(s[1..]), v);
    }
  }

  lemma {:induction false} CountInOrder(s: seq<real>, i: nat, v: real)
    requires Ascending(s) && i < |s|
    ensures s[i] <= v ==> CountAtMost(s, v) > i
    ensures v < s[i] ==> CountAtMost(s, v) <= i
  {
    if i > 0 {
      CountInOrder(s[1..], i - 1, v);
      assert s[0] <= s[i];
    } else if v < s[0] {
      NoneAtMost(s, v);
    }
  }

  lemma {:induction false} NoneAtMost(s: seq<real>, v: real)
    requires forall i | 0 <= i < |s| :: v < s[i]
    ensures CountAtMost(s, v) == 0
  {
    if s != [] { NoneAtMost(s[1..], v); }
  }

  /** How many samples a share of n is, before rounding. */
  function Rank(share: real, n: nat): real { share * n as real }

  /** The nearest-rank percentile: the least sample that at least the given share of all samples
      does not exceed. */
  ghost predicate IsNearestRank(samples: seq<real>, share: real, v: real) {
    && v in samples
    && CountAtMost(samples, v) as real >= Rank(share, |samples|)
    && forall w | w in samples && w < v :: (CountAtMost(samples, w) as real) < Rank(share, |samples|)
  }

  function Ceiling(x: real): int { -((-x).Floor) }

  /** The index the logger reads: the rank rounded up, less one, clamped to the last sample. */
  function RankIndex(share: real, n: nat): (idx: nat)
    requires share > 0.0 && n > 0
    ensures idx < n
  {
    RankIsPositive(share, n);
    var idx := Ceiling(Rank(share, n)) - 1;
    if idx >= n then n - 1 else idx
  }

  lemma RankIsPositive(share: real, n: nat)
    requires share > 0.0 && n > 0
    ensures Ceiling(Rank(share, n)) >= 1
  {
    assert Rank(share, n) > 0.0;
  }

  lemma SharesRise(a: real, b: real, n: nat)
    requires a <= b
    ensures Rank(a, n) <= Rank(b, n) && Rank(1.0, n) == n as real
  {
    assert (b - a) * n as real >= 0.0;
    assert b * n as real == a * n as real + (b - a) * n as real;
  }

  lemma RankInRange(share: real, n: nat)
    requires 0.0 < share <= 1.0 && n > 0
    ensures var idx := RankIndex(share, n); idx as real < Rank(share, n) <= (idx + 1) as real
  {
    SharesRise(share, 1.0, n);
  }

  lemma SmallerIsRarer(samples: seq<real>, idx: nat, w: real, rank: real)
    requires idx < |samples| && w < Sort(samples)[idx] && idx as real < rank
    ensures (CountAtMost(samples, w) as real) < rank
  {
    hide Sort, CountAtMost;
    SortSorts(samples);
    CountInOrder(Sort(samples), idx, w);
    CountAfterSort(samples, w);
  }

  lemma SampleIsReached(samples: seq<real>, idx: nat, rank: real)
    requires idx < |samples| && rank <= (idx + 1) as real
    ensures Sort(samples)[idx] in samples
    ensures CountAtMost(samples, Sort(samples)[idx]) as real >= rank
  {
    hide Sort, CountAtMost;
    SortSorts(samples);
    SameElements(Sort(samples), samples);
    CountInOrder(Sort(samples), idx, Sort(samples)[idx]);
    CountAfterSort(samples, Sort(samples)[idx]);
  }

  lemma RankIsNearest(samples: seq<real>, share: real)
    requires samples != [] && 0.0 < share <= 1.0
    ensures IsNearestRank(samples, share, Sort(samples)[RankIndex(share, |samples|)])
  {
    hide Sort, CountAtMost, RankIndex, Rank;
    var idx, rank := RankIndex(share, |samples|), Rank(share, |samples|);
    RankInRange(share, |samples|);
    SampleIsReached(samples, idx, rank);
    forall w | w in samples && w < Sort(samples)[idx] ensures (CountAtMost(samples, w) as real) < rank {
      SmallerIsRarer(samples, idx, w, rank);
    }
  }

  // -------------------------------------------------------------- average

  function Total(s: seq<real>): real {
    if s == [] then 0.0 else Total(s[..|s| - 1]) + s[|s| - 1]
  }

  lemma {:induction false} TotalBounds(s: seq<real>, low: real, high: real)
    requires forall i | 0 <= i < |s| :: low <= s[i] <= high
    ensures low * |s| as real <= Total(s) <= high * |s| as real
  {
    if s != [] {
      var n := |s| - 1;
      TotalBounds(s[..n], low, high);
      OneMoreTimes(low, n);
      OneMoreTimes(high, n);
    }
  }

  lemma {:induction false} TotalOfFront(x: real, s: seq<real>)
    ensures Total([x] + s) == x + Total(s)
  {
    var t := [x] + s;
    if s == [] {
      assert t[..0] == [];
    } else {
      assert t[..|t| - 1] == [x] + s[..|s| - 1];
      TotalOfFront(x, s[..|s| - 1]);
    }
  }

  lemma {:induction false} TotalAfterInsert(x: real, s: seq<real>)
    ensures Total(Insert(x, s)) == x + Total(s)
  {
    hide Total;
    TotalOfFront(x, s);
    if s == [] {
      assert [x] + s == [x];
    } else if x > s[0] {
      TotalAfterInsert(x, s[1..]);
      TotalOfFront(s[0], Insert(x, s[1..]));
      TotalOfFront(s[0], s[1..]);
      assert [s[0]] + s[1..] == s;
    }
  }

  /** Sorting does not change the sum. */
  lemma {:induction false} TotalAfterSort(s: seq<real>)
    ensures Total(Sort(s)) == Total(s)
  {
    hide Total, Insert;
    if s != [] {
      TotalAfterSort(s[1..]);
      TotalAfterInsert(s[0], Sort(s[1..]));
      TotalOfFront(s[0], s[1..]);
      assert [s[0]] + s[1..] == s;
    }
  }

  lemma OneMoreTimes(x: real, n: nat)
    ensures x * (n + 1) as real == x * n as real + x
  {}

  lemma SignOfProduct(x: real, n: real)
    requires n > 0.0
    ensures x * n >= 0.0 <==> x >= 0.0
  {}

  lemma MeanBetween(total: real, n: real, low: real, high: real)
    requires n > 0.0 && low * n <= total <= high * n
    ensures low <= total / n <= high
  {
    assert total / n * n == total;
    assert (total / n - low) * n == total - low * n;
    assert (high - total / n) * n == high * n - total;
    SignOfProduct(total / n - low, n);
    SignOfProduct(high - total / n, n);
  }

  // ------------------------------------------------------------ the logger

  /** The summary promised for the samples, whatever order they came in. */
  ghost predicate Summarizes(d: Distribution, samples: seq<real>) {
    && d.count == |samples|
    && d.min in samples && d.max in samples && (forall x | x in samples :: d.min <= x <= d.max)
    && d.avg * |samples| as real == Total(samples) && d.min <= d.avg <= d.max
    && IsNearestRank(samples, 0.50, d.p50) && IsNearestRank(samples, 0.95, d.p95)
    && IsNearestRank(samples, 0.99, d.p99)
    && d.min <= d.p50 <= d.p95 <= d.p99 <= d.max
  }

  /** Sorts the samples in place and reads the summary off them. */
  method ComputeDistribution(samples: array<real>) returns (dist: Distribution)
    modifies samples
    ensures samples[..] == Sort(old(samples[..]))
    ensures samples.Length == 0 ==> dist == Distribution(0, 0.0, 0.0, 0.0, 0.0, 0.0, 0.0)
    ensures samples.Length > 0 ==> Summarizes(dist, old(samples[..]))
  {
    if samples.Length == 0 {
      return NO_DATA;
    }
    ghost var before := samples[..];
    var sorted := Sort(samples[..]);
    forall i | 0 <= i < samples.Length {
      samples[i] := sorted[i];
    }
    assert samples[..] == sorted;
    var n := samples.Length;
    var sum := 0.0;
    for i := 0 to n
      invariant samples[..] == sorted && sum == Total(sorted[..i])
    {
      assert sorted[..i + 1][..i] == sorted[..i];
      sum := sum + samples[i];
    }
    assert sorted[..n] == sorted;
    dist := Distribution(n, samples[0], sum / n as real, samples[RankIndex(0.50, n)],
                         samples[RankIndex(0.95, n)], samples[RankIndex(0.99, n)], samples[n - 1]);
    SummaryIsRight(before, dist);
  }

  lemma SummaryIsRight(samples: seq<real>, d: Distribution)
    requires samples != []
    requires var s, n := Sort(samples), |samples|;
             d == Distribution(n, s[0], Total(s) / n as real, s[RankIndex(0.50, n)], s[RankIndex(0.95, n)],
                               s[RankIndex(0.99, n)], s[n - 1])
    ensures Summarizes(d, samples)
  {
    hide Sort, IsNearestRank, RankIndex, Total, Ascending;
    var s, n := Sort(samples), |samples|;
    SortSorts(samples);
    RankIsNearest(samples, 0.50);
    RankIsNearest(samples, 0.95);
    RankIsNearest(samples, 0.99);
    PercentilesRise(s);
    MeanOfOrdered(s);
    TotalAfterSort(samples);
    EndsAreExtremes(s, samples);
  }

  lemma PercentilesRise(s: seq<real>)
    requires Ascending(s) && s != []
    ensures s[0] <= s[RankIndex(0.50, |s|)] <= s[RankIndex(0.95, |s|)] <= s[RankIndex(0.99, |s|)] <= s[|s| - 1]
  {
    hide RankIndex;
    RanksRise(|s|);
  }

  lemma EndsAreExtremes(s: seq<real>, samples: seq<real>)
    requires Ascending(s) && s != [] && multiset(s) == multiset(samples)
    ensures s[0] in samples && s[|s| - 1] in samples
    ensures forall x | x in samples :: s[0] <= x <= s[|s| - 1]
  {
    SameElements(s, samples);
    assert s[0] in s && s[|s| - 1] in s;
  }

  lemma MeanOfOrdered(s: seq<real>)
    requires Ascending(s) && s != []
    ensures s[0] <= Total(s) / |s| as real <= s[|s| - 1]
    ensures Total(s) / |s| as real * |s| as real == Total(s)
  {
    hide Total;
    TotalBounds(s, s[0], s[|s| - 1]);
    MeanBetween(Total(s), |s| as real, s[0], s[|s| - 1]);
  }

  lemma SameElements(s: seq<real>, t: seq<real>)
    requires multiset(s) == multiset(t)
    ensures forall x :: x in s <==> x in t
  {
    assert forall x :: x in s <==> x in multiset(s);
    assert forall x :: x in t <==> x in multiset(t);
  }

  lemma RanksRise(n: nat)
    requires n > 0
    ensures RankIndex(0.50, n) <= RankIndex(0.95, n) <= RankIndex(0.99, n) <= n - 1
  {
    SharesRise(0.50, 0.95, n);
    SharesRise(0.95, 0.99, n);
  }
}
