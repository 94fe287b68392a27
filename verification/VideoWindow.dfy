/** The half-second statistics window of the media bridge, in reals and milliseconds. */
module VideoWindow {
  import opened Basics

  const WINDOW_MS := 500.0
  const LONGEST_INTERVAL_MS := 1000.0

  datatype Window = Window(lastSubmit: Option<real>, start: Option<real>, frames: nat, sum: real, squares: real)

  const EMPTY_WINDOW := Window(None, None, 0, 0.0, 0.0)

  datatype Report = Report(frames: nat, averageMs: real, variance: real)

  function Counts(interval: real): bool { 0.0 < interval < LONGEST_INTERVAL_MS }

  function IntervalAt(w: Window, now: real): real {
    if w.lastSubmit.Some? then now - w.lastSubmit.value else 0.0
  }

  /** One more frame in the window. */
  function Record(w: Window, now: real): Window {
    var x := IntervalAt(w, now);
    Window(Some(now), if w.start == None then Some(now) else w.start, w.frames + 1,
           if Counts(x) then w.sum + x else w.sum,
           if Counts(x) then w.squares + x * x else w.squares)
  }

  function Average(w: Window, fps: nat): real
    requires fps > 0
  {
    if w.frames > 0 && w.sum > 0.0 then w.sum / w.frames as real else 1000.0 / fps as real
  }

  /** The number under the square root of the jitter. */
  function Variance(w: Window, fps: nat): real
    requires fps > 0 && w.frames > 0
  {
    w.squares / w.frames as real - Average(w, fps) * Average(w, fps)
  }

  function ReportOf(w: Window, fps: nat): Report
    requires fps > 0 && w.frames > 0
  {
    Report(w.frames, Average(w, fps), if w.frames > 1 then Variance(w, fps) else 0.0)
  }

  predicate Closes(w: Window, now: real) { w.start.Some? && now - w.start.value >= WINDOW_MS }

  function Reset(w: Window, now: real): Window { Window(w.lastSubmit, Some(now), 0, 0.0, 0.0) }

  function Submit(w: Window, now: real): Window {
    var r := Record(w, now);
    if Closes(r, now) then Reset(r, now) else r
  }

  function Reported(w: Window, now: real, fps: nat): Option<Report>
    requires fps > 0
  {
    var r := Record(w, now);
    if Closes(r, now) then Some(ReportOf(r, fps)) else None
  }

  // ----------------------------------------------------------- meaning

  function Sum(xs: seq<real>): real {
    if xs == [] then 0.0 else Sum(xs[..|xs| - 1]) + xs[|xs| - 1]
  }

  function Squares(xs: seq<real>): real {
    if xs == [] then 0.0 else Squares(xs[..|xs| - 1]) + xs[|xs| - 1] * xs[|xs| - 1]
  }

  function Square(x: real): (r: real)
    ensures r >= 0.0
  {
    if x >= 0.0 then x * x else (-x) * (-x)
  }

  /** The sum of squared distances from a value. */
  function Deviation(xs: seq<real>, a: real): (d: real)
    ensures d >= 0.0
  {
    if xs == [] then 0.0
    else Deviation(xs[..|xs| - 1], a) + Square(xs[|xs| - 1] - a)
  }

  /** The window holds these intervals, at most one for each of its frames. */
  ghost predicate Holds(w: Window, xs: seq<real>) {
    && |xs| <= w.frames && w.sum == Sum(xs) && w.squares == Squares(xs)
    && (forall i | 0 <= i < |xs| :: Counts(xs[i]))
    && (w.start == None ==> w.frames == 0)
  }

  lemma SubmitHolds(w: Window, xs: seq<real>, now: real) returns (ys: seq<real>)
    requires Holds(w, xs)
    ensures Holds(Record(w, now), ys)
    ensures ys == if w.lastSubmit.Some? && 0.0 < now - w.lastSubmit.value < 1000.0
                  then xs + [now - w.lastSubmit.value] else xs
    ensures Holds(Submit(w, now), if Closes(Record(w, now), now) then [] else ys)
  {
    var x := IntervalAt(w, now);
    ys := if Counts(x) then xs + [x] else xs;
    assert (xs + [x])[..|xs|] == xs;
  }

  /** A report is made by the first frame half a second or more after the window began; it says
      how many frames there were and their mean interval, and the next window begins with it. */
  lemma ReportsEveryHalfSecond(w: Window, xs: seq<real>, now: real, fps: nat) returns (ys: seq<real>)
    requires Holds(w, xs) && fps > 0
    ensures Holds(Record(w, now), ys)
    ensures Reported(w, now, fps).Some? <==> w.start.Some? && now >= w.start.value + 500.0
    ensures Submit(w, now).lastSubmit == Some(now)
    ensures match Reported(w, now, fps)
            case None => Submit(w, now).frames == w.frames + 1
                         && Submit(w, now).start == if w.start == None then Some(now) else w.start
            case Some(report) =>
              && report.frames == w.frames + 1 && Submit(w, now) == Window(Some(now), Some(now), 0, 0.0, 0.0)
              && report.averageMs * (if ys == [] then fps else report.frames) as real
                 == if ys == [] then 1000.0 else Sum(ys)
  {
    ys := SubmitHolds(w, xs, now);
    var r := Record(w, now);
    SumIsPositive(ys);
    if r.frames > 0 { AverageTimes(r, fps); }
    hide Squares, Variance, Average, Sum, Counts;
  }

  lemma AverageTimes(w: Window, fps: nat)
    requires fps > 0 && w.frames > 0
    ensures w.sum > 0.0 ==> Average(w, fps) * w.frames as real == w.sum
    ensures w.sum <= 0.0 ==> Average(w, fps) * fps as real == 1000.0
  {}

  lemma OneMoreDeviation(d: real, q: real, s: real, k: real, x: real, a: real)
    requires d == q - 2.0 * a * s + k * (a * a)
    ensures d + Square(x - a) == q + x * x - 2.0 * a * (s + x) + (k + 1.0) * (a * a)
  {
    assert Square(x - a) == x * x - 2.0 * a * x + a * a;
    assert 2.0 * a * (s + x) == 2.0 * a * s + 2.0 * a * x;
    assert (k + 1.0) * (a * a) == k * (a * a) + a * a;
  }

  lemma {:induction false} DeviationIs(xs: seq<real>, a: real)
    ensures Deviation(xs, a) == Squares(xs) - 2.0 * a * Sum(xs) + (|xs| as real) * (a * a)
  {
    hide Square;
    if xs != [] {
      var n := |xs| - 1;
      DeviationIs(xs[..n], a);
      OneMoreDeviation(Deviation(xs[..n], a), Squares(xs[..n]), Sum(xs[..n]), n as real, xs[n], a);
      assert |xs| as real == n as real + 1.0;
    }
  }

  lemma {:induction false} SumIsPositive(xs: seq<real>)
    requires forall i | 0 <= i < |xs| :: Counts(xs[i])
    ensures Sum(xs) >= 0.0 && (Sum(xs) == 0.0 <==> xs == []) && (xs == [] ==> Squares(xs) == 0.0)
  {
    if xs != [] {
      SumIsPositive(xs[..|xs| - 1]);
      assert Counts(xs[|xs| - 1]);
    }
  }

  lemma MeanTimesCount(n: real, s: real)
    requires n > 0.0
    ensures s / n * n == s
  {}

  lemma Variances(n: real, k: real, s: real, q: real, a: real, d: real)
    requires n > 0.0 && a * n == s && d == q - 2.0 * a * s + k * (a * a)
    ensures (q / n - a * a) * n == d + (n - k) * (a * a)
  {
    assert q / n * n == q;
    assert (q / n - a * a) * n == q / n * n - a * a * n;
    assert a * s == a * a * n;
    assert k * (a * a) + (n - k) * (a * a) == n * (a * a);
  }

  lemma SignOfQuotient(v: real, n: real)
    requires n > 0.0
    ensures v * n >= 0.0 ==> v >= 0.0
    ensures v * n < 0.0 ==> v < 0.0
  {}

  /** The variance is the mean squared distance from the average, a frame without an interval
      counting as an interval of zero; so it is negative exactly in a window without intervals,
      where the average is a guess and not the mean of anything. */
  lemma VarianceIsMeanSquareDistance(w: Window, xs: seq<real>, fps: nat)
    requires Holds(w, xs) && w.frames > 0 && fps > 0
    ensures xs != [] ==>
              var a := Average(w, fps);
              && a * (w.frames as real) == Sum(xs)
              && Variance(w, fps) * (w.frames as real)
                 == Deviation(xs, a) + ((w.frames - |xs|) as real) * (a * a)
    ensures Variance(w, fps) >= 0.0 <==> xs != []
  {
    hide Deviation, Sum, Squares;
    var n, a := w.frames as real, Average(w, fps);
    SumIsPositive(xs);
    if xs != [] {
      MeanTimesCount(n, w.sum);
      DeviationIs(xs, a);
      Variances(n, |xs| as real, w.sum, w.squares, a, Deviation(xs, a));
      NonNegative((w.frames - |xs|) as real, a);
      SignOfQuotient(Variance(w, fps), n);
    } else {
      assert w.squares / n == 0.0;
      assert a > 0.0;
      NonNegative(1.0, a);
      assert a * a > 0.0;
    }
  }

  lemma NonNegative(m: real, a: real)
    requires m >= 0.0
    ensures m * (a * a) >= 0.0
  {}

  /** Cauchy-Schwarz for the running sums: (sum of x)^2 <= frames * (sum of x^2). */
  lemma SumsSatisfyCauchySchwarz(w: Window, xs: seq<real>)
    requires Holds(w, xs)
    ensures w.sum * w.sum <= (w.frames as real) * w.squares
  {
    hide Deviation, Sum, Squares;
    SumIsPositive(xs);
    if xs != [] {
      VarianceIsMeanSquareDistance(w, xs, 60);
      ScaledVariance(w.frames as real, w.sum, w.squares, Average(w, 60));
    }
  }

  lemma ScaledVariance(n: real, s: real, q: real, a: real)
    requires n > 0.0 && a * n == s && q / n - a * a >= 0.0
    ensures s * s <= n * q
  {
    assert q / n * n == q;
    assert s * s == a * a * n * n;
    assert (q / n - a * a) * (n * n) >= 0.0;
    assert (q / n - a * a) * (n * n) == q / n * n * n - a * a * n * n;
  }
}
