/**
 * The emergency-freeze detector: a sliding window of passes and violations per project, a z-score test, and a
 * velocity test. Floats are modelled by reals and `math.sqrt` by any exact square root.
 */
module AnomalyDetector {
  import opened Options

  datatype Outcome = Outcome(at: real, violation: bool)
  type Window = seq<Outcome>

  datatype Freeze = NoFreeze | Velocity | Statistical

  datatype Config = Config(windowSize: nat, threshold: real, sqrt: real -> real)

  ghost predicate ExactRoot(sqrt: real -> real) {
    forall x: real :: x >= 0.0 ==> sqrt(x) >= 0.0 && sqrt(x) * sqrt(x) == x
  }

  function LastN<T>(s: seq<T>, n: nat): seq<T> {
    if |s| <= n then s else s[|s| - n..]
  }

  function Value(o: Outcome): real {
    if o.violation then 1.0 else 0.0
  }

  function Sum(w: Window): real {
    if w == [] then 0.0 else Sum(w[..|w| - 1]) + Value(w[|w| - 1])
  }

  function Mean(w: Window): real
    requires w != []
  {
    Sum(w) / |w| as real
  }

  function SquaredDeviations(w: Window, mean: real): real {
    if w == [] then 0.0
    else SquaredDeviations(w[..|w| - 1], mean) + (Value(w[|w| - 1]) - mean) * (Value(w[|w| - 1]) - mean)
  }

  function Variance(w: Window): real
    requires w != []
  {
    SquaredDeviations(w, Mean(w)) / |w| as real
  }

  predicate AllViolations(w: Window) {
    forall i :: 0 <= i < |w| ==> w[i].violation
  }

  /** Five violations in a row, the first less than five seconds ago. */
  predicate Rapid(w: Window, now: real)
    requires |w| >= 5
  {
    AllViolations(w[|w| - 5..]) && now - w[|w| - 5].at < 5.0
  }

  /** The decision on one new outcome, taken before it enters the window. */
  function Decide(c: Config, w: Window, violation: bool, now: real): Freeze {
    if |w| < 10 then NoFreeze
    else
      var stddev := c.sqrt(Variance(w));
      if stddev == 0.0 then NoFreeze
      else
        var zScore := ((if violation then 1.0 else 0.0) - Mean(w)) / stddev;
        if violation && Rapid(w, now) then Velocity
        else if violation && zScore > c.threshold && Mean(w[|w| - 10..]) > 0.6 then Statistical
        else NoFreeze
  }

  // ---- the statistics of 0/1 outcomes are integer arithmetic ----

  function Count(w: Window): nat {
    if w == [] then 0 else Count(w[..|w| - 1]) + (if w[|w| - 1].violation then 1 else 0)
  }

  lemma {:induction false} CountBounds(w: Window)
    ensures Sum(w) == Count(w) as real && Count(w) <= |w|
    ensures Count(w) == |w| <==> AllViolations(w)
    ensures Count(w) == 0 <==> forall i :: 0 <= i < |w| ==> !w[i].violation
  {
    if w != [] {
      var front := w[..|w| - 1];
      CountBounds(front);
      assert forall i :: 0 <= i < |front| ==> front[i] == w[i];
    }
  }

  lemma {:induction false} CountSplit(a: Window, b: Window)
    ensures Count(a + b) == Count(a) + Count(b)
    decreases |b|
  {
    if b == [] {
      assert a + b == a;
    } else {
      CountSplit(a, b[..|b| - 1]);
      assert (a + b)[..|a + b| - 1] == a + b[..|b| - 1];
    }
  }

  lemma {:induction false} DeviationsByCount(w: Window, m: real)
    ensures SquaredDeviations(w, m)
         == Count(w) as real * (1.0 - m) * (1.0 - m) + (|w| - Count(w)) as real * m * m
  {
    if w != [] {
      var front := w[..|w| - 1];
      DeviationsByCount(front, m);
      CountBounds(front);
    }
  }

  lemma QuotientTimes(k: real, n: real, m: real)
    requires n > 0.0 && m == k / n
    ensures m * n == k
  {
  }

  lemma MeanByCount(w: Window)
    requires w != []
    ensures Mean(w) * |w| as real == Count(w) as real
  {
    CountBounds(w);
    QuotientTimes(Sum(w), |w| as real, Mean(w));
  }

  /** Variance is m(1 - m) for the mean m = k/n. */
  lemma VarianceByCount(w: Window)
    requires w != []
    ensures Variance(w) == Mean(w) * (1.0 - Mean(w))
  {
    var n, k, m := |w| as real, Count(w) as real, Mean(w);
    MeanByCount(w);
    CountBounds(w);
    DeviationsByCount(w, m);
    assert (|w| - Count(w)) as real == n - k;
    BinomialIdentity(n, m);
    QuotientOf(SquaredDeviations(w, m), n, m * (1.0 - m), Variance(w));
  }

  lemma QuotientOf(d: real, n: real, v: real, q: real)
    requires n > 0.0 && d == v * n && q == d / n
    ensures q == v
  {
  }

  lemma BinomialIdentity(n: real, m: real)
    ensures m * n * (1.0 - m) * (1.0 - m) + (n - m * n) * m * m == m * (1.0 - m) * n
  {
  }

  lemma SquaresCompare(a: real, b: real)
    requires a >= 0.0 && b >= 0.0
    ensures a > b <==> a * a > b * b
  {
    if a > b {
      PositiveProduct(a - b, a + b, a * a - b * b);
    } else if a < b {
      PositiveProduct(b - a, b + a, b * b - a * a);
    }
  }

  function Pos(t: real): real {
    if t < 0.0 then 0.0 else t
  }

  /** The n - k passes outnumber t squared times the k violations (always so for a negative t). */
  predicate Prevail(n: real, k: real, t: real) {
    t < 0.0 || n - k > t * t * k
  }

  lemma ScoreAboveThreshold(p: real, s: real, t: real)
    requires 0.0 < p < 1.0 && s > 0.0 && s * s == p * (1.0 - p)
    ensures (1.0 - p) / s > t <==> Prevail(1.0, p, t)
  {
    var q := 1.0 - p;
    var z := q / s;
    assert z * s == q && z > 0.0;
    if t >= 0.0 {
      SquaresCompare(z, t);
      assert z * z * p == q by {
        assert (z * s) * (z * s) == z * z * (s * s);
        assert q * q == z * z * p * q;
      }
      if z * z > t * t {
        assert z * z * p > t * t * p;
      }
      if z * z <= t * t {
        assert z * z * p <= t * t * p;
      }
    }
  }

  /** The passes of the window prevail over its violations. */
  predicate PassesPrevail(w: Window, t: real) {
    Prevail(|w| as real, Count(w) as real, t)
  }

  lemma RootOf(sqrt: real -> real, v: real)
    requires ExactRoot(sqrt) && v >= 0.0
    ensures sqrt(v) >= 0.0 && sqrt(v) * sqrt(v) == v
    ensures v == 0.0 <==> sqrt(v) == 0.0
  {
    var s := sqrt(v);
    assert s >= 0.0 && s * s == v;
    if s > 0.0 {
      PositiveProduct(s, s, v);
    } else {
      ZeroProduct(s, s, v);
    }
  }

  lemma PositiveProduct(a: real, b: real, v: real)
    requires a > 0.0 && b > 0.0 && a * b == v
    ensures v > 0.0
  {
  }

  lemma ZeroProduct(a: real, b: real, v: real)
    requires a == 0.0 && a * b == v
    ensures v == 0.0
  {
  }

  lemma ProperFraction(n: real, k: real, p: real)
    requires n > 0.0 && p * n == k && 0.0 <= k <= n
    ensures 0.0 <= p <= 1.0
    ensures p == 0.0 <==> k == 0.0
    ensures p == 1.0 <==> k == n
    ensures p * (1.0 - p) >= 0.0
    ensures 0.0 < k < n ==> p * (1.0 - p) > 0.0
  {
    assert p < 0.0 ==> p * n < 0.0;
    assert p > 1.0 ==> (p - 1.0) * n > 0.0;
  }

  /** m is the mean and s the positive standard deviation of k violations among n outcomes. */
  ghost predicate Moments(n: real, k: real, m: real, s: real) {
    0.0 < k < n && m * n == k && s > 0.0 && s * s == m * (1.0 - m)
  }

  lemma ScoreOfMoments(n: real, k: real, m: real, s: real, t: real)
    requires Moments(n, k, m, s)
    ensures (1.0 - m) / s > t <==> Prevail(n, k, t)
  {
    ProperFraction(n, k, m);
    ScoreAboveThreshold(m, s, t);
    ScaleByCount(n, k, m, t);
  }

  ghost predicate MeanAndVariance(n: real, k: real, m: real, v: real) {
    m * n == k && v == m * (1.0 - m)
  }

  lemma RootGivesMoments(sqrt: real -> real, n: real, k: real, m: real, v: real)
    requires ExactRoot(sqrt) && 0.0 < k < n && MeanAndVariance(n, k, m, v)
    ensures Moments(n, k, m, sqrt(v))
  {
    ProperFraction(n, k, m);
    RootOf(sqrt, v);
  }

  lemma WindowMeanAndVariance(w: Window)
    requires w != []
    ensures MeanAndVariance(|w| as real, Count(w) as real, Mean(w), Variance(w))
  {
    MeanByCount(w);
    VarianceByCount(w);
  }

  lemma WindowMoments(c: Config, w: Window)
    requires ExactRoot(c.sqrt) && 0 < Count(w) < |w|
    ensures Moments(|w| as real, Count(w) as real, Mean(w), c.sqrt(Variance(w)))
  {
    WindowMeanAndVariance(w);
    RootGivesMoments(c.sqrt, |w| as real, Count(w) as real, Mean(w), Variance(w));
  }

  /** For a new violation the z-score exceeds the threshold exactly when passes prevail. */
  lemma ScoreByCount(c: Config, w: Window)
    requires ExactRoot(c.sqrt) && 0 < Count(w) < |w|
    ensures c.sqrt(Variance(w)) > 0.0
    ensures (1.0 - Mean(w)) / c.sqrt(Variance(w)) > c.threshold <==> PassesPrevail(w, c.threshold)
  {
    WindowMoments(c, w);
    ScoreOfMoments(|w| as real, Count(w) as real, Mean(w), c.sqrt(Variance(w)), c.threshold);
  }

  lemma ScaleByCount(n: real, k: real, p: real, t: real)
    requires n > 0.0 && p * n == k
    ensures Prevail(1.0, p, t) <==> Prevail(n, k, t)
  {
    var u := t * t;
    SameSign(1.0 - p - u * p, n, n - k - u * k);
  }

  lemma SameSign(d: real, n: real, e: real)
    requires n > 0.0 && d * n == e
    ensures d > 0.0 <==> e > 0.0
  {
    if d > 0.0 {
      PositiveProduct(d, n, e);
    } else if d < 0.0 {
      PositiveProduct(-d, n, -e);
    } else {
      ZeroProduct(d, n, e);
    }
  }

  lemma NoSpread(sqrt: real -> real, n: real, k: real, m: real, v: real)
    requires ExactRoot(sqrt) && n > 0.0 && 0.0 <= k <= n && MeanAndVariance(n, k, m, v)
    ensures sqrt(v) == 0.0 <==> (k == 0.0 || k == n)
  {
    ProperFraction(n, k, m);
    RootOf(sqrt, v);
  }

  lemma RootZero(c: Config, w: Window)
    requires ExactRoot(c.sqrt) && w != []
    ensures c.sqrt(Variance(w)) == 0.0 <==> (Count(w) == 0 || Count(w) == |w|)
  {
    CountBounds(w);
    WindowMeanAndVariance(w);
    NoSpread(c.sqrt, |w| as real, Count(w) as real, Mean(w), Variance(w));
  }

  lemma SixTenths(w: Window)
    requires |w| == 10
    ensures Mean(w) > 0.6 <==> Count(w) >= 7
  {
    MeanByCount(w);
  }

  /** The statistical test on a mixed window, in counts. */
  predicate Spiked(w: Window, t: real)
    requires |w| >= 10
  {
    Count(w[|w| - 10..]) >= 7 && PassesPrevail(w, t)
  }

  lemma MixedWindowDecides(c: Config, w: Window, violation: bool, now: real)
    requires ExactRoot(c.sqrt) && |w| >= 10 && 0 < Count(w) < |w|
    ensures Decide(c, w, violation, now) ==
            if !violation then NoFreeze else if Rapid(w, now) then Velocity
            else if Spiked(w, c.threshold) then Statistical else NoFreeze
  {
    SixTenths(w[|w| - 10..]);
    ScoreByCount(c, w);
  }

  lemma UniformWindowDecides(c: Config, w: Window, violation: bool, now: real)
    requires ExactRoot(c.sqrt) && (|w| < 10 || Count(w) == 0 || Count(w) == |w|)
    ensures Decide(c, w, violation, now) == NoFreeze
  {
    if |w| >= 10 {
      RootZero(c, w);
    }
  }

  /** When each freeze fires, with no statistics left: counts, the last ten outcomes, and the clock. */
  lemma FreezeExactly(c: Config, w: Window, violation: bool, now: real)
    requires ExactRoot(c.sqrt)
    ensures Decide(c, w, violation, now) == Velocity <==>
            (violation && |w| >= 10 && 0 < Count(w) < |w| && Rapid(w, now))
    ensures Decide(c, w, violation, now) == Statistical <==>
            (violation && |w| >= 10 && 0 < Count(w) < |w| && !Rapid(w, now) && Spiked(w, c.threshold))
  {
    CountBounds(w);
    if |w| >= 10 && 0 < Count(w) < |w| {
      MixedWindowDecides(c, w, violation, now);
    } else {
      UniformWindowDecides(c, w, violation, now);
    }
  }

  /** The positions of the violations. */
  function ViolationsAt(w: Window): set<nat> {
    set i: nat | i < |w| && w[i].violation
  }

  lemma {:induction false} CountIsSize(w: Window)
    ensures |ViolationsAt(w)| == Count(w)
  {
    if w != [] {
      var n := |w| - 1;
      CountIsSize(w[..n]);
      assert ViolationsAt(w) == ViolationsAt(w[..n]) + if w[n].violation then {n} else {};
    }
  }

  /**
   * The same in terms of the stored outcomes alone. Velocity: a mixed window of at least ten, the last five all
   * violations and the first of these less than five seconds old. Statistical: failing that, at least seven of the
   * last ten violate and the passes outnumber the violations by the threshold squared.
   */
  lemma FreezeOnOutcomes(c: Config, w: Window, violation: bool, now: real)
    requires ExactRoot(c.sqrt)
    ensures var mixed := violation && |w| >= 10 && (exists o :: o in w && o.violation)
                         && (exists o :: o in w && !o.violation);
            var rapid := mixed && (forall i :: |w| - 5 <= i < |w| ==> w[i].violation) && now - w[|w| - 5].at < 5.0;
            && (Decide(c, w, violation, now) == Velocity <==> rapid)
            && (Decide(c, w, violation, now) == Statistical <==>
                  && mixed && !rapid
                  && |ViolationsAt(w[|w| - 10..])| >= 7
                  && Prevail(|w| as real, |ViolationsAt(w)| as real, c.threshold))
  {
    FreezeExactly(c, w, violation, now);
    MixedByCount(w);
    CountIsSize(w);
    if |w| >= 10 {
      CountIsSize(w[|w| - 10..]);
      LastFive(w);
    }
  }

  lemma MixedByCount(w: Window)
    ensures 0 < Count(w) < |w| <==> (exists o :: o in w && o.violation) && (exists o :: o in w && !o.violation)
  {
    CountBounds(w);
  }

  lemma LastFive(w: Window)
    requires |w| >= 5
    ensures AllViolations(w[|w| - 5..]) <==> forall i :: |w| - 5 <= i < |w| ==> w[i].violation
  {
    var last := w[|w| - 5..];
    if AllViolations(last) {
      forall i | |w| - 5 <= i < |w| ensures w[i].violation {
        assert last[i - (|w| - 5)] == w[i];
      }
    }
  }

  lemma TailCount(w: Window, n: nat)
    requires n <= |w|
    ensures Count(w[|w| - n..]) <= Count(w)
  {
    CountSplit(w[..|w| - n], w[|w| - n..]);
    assert w == w[..|w| - n] + w[|w| - n..];
  }

  lemma StatisticalCounts(c: Config, w: Window, violation: bool, now: real)
    requires ExactRoot(c.sqrt) && Decide(c, w, violation, now) == Statistical
    ensures |w| >= 10 && Count(w) >= 7 && PassesPrevail(w, c.threshold)
  {
    FreezeExactly(c, w, violation, now);
    TailCount(w, 10);
  }

  /**
   * A statistical freeze needs more than 7 (1 + threshold squared) outcomes in the window: at least seven of the
   * last ten were violations, and passes must still outnumber violations by the threshold squared.
   */
  lemma StatisticalNeedsWideWindow(c: Config, w: Window, violation: bool, now: real)
    requires ExactRoot(c.sqrt) && Decide(c, w, violation, now) == Statistical
    ensures |w| as real > 7.0 * (1.0 + Pos(c.threshold) * Pos(c.threshold))
  {
    StatisticalCounts(c, w, violation, now);
    var n, k := |w|, Count(w);
    if c.threshold >= 0.0 {
      SevenViolations(n as real, k as real, c.threshold * c.threshold);
    }
  }

  lemma SevenViolations(n: real, k: real, u: real)
    requires k >= 7.0 && u >= 0.0 && n - k > u * k
    ensures n > 7.0 * (1.0 + u)
  {
    assert u * (k - 7.0) >= 0.0;
  }

  // ---- runs over many projects ----

  datatype Decision = Decision(project: Option<string>, violation: bool, at: real)

  type History = map<string, Window>

  function ProjectKey(project: Option<string>): string {
    if project.None? || project.value == "" || project.value == "None" then "global" else project.value
  }

  function WindowOf(h: History, key: string): Window {
    if key in h then h[key] else []
  }

  function Record(c: Config, h: History, d: Decision): History {
    var key := ProjectKey(d.project);
    h[key := LastN(WindowOf(h, key) + [Outcome(d.at, d.violation)], c.windowSize)]
  }

  function FreezeOf(c: Config, h: History, d: Decision): Freeze {
    Decide(c, WindowOf(h, ProjectKey(d.project)), d.violation, d.at)
  }

  function Run(c: Config, h: History, ds: seq<Decision>): History
    decreases |ds|
  {
    if ds == [] then h else Run(c, Record(c, h, ds[0]), ds[1..])
  }

  function FreezesIn(c: Config, h: History, ds: seq<Decision>): seq<(Option<string>, Freeze)>
    decreases |ds|
  {
    if ds == [] then []
    else [(ds[0].project, FreezeOf(c, h, ds[0]))] + FreezesIn(c, Record(c, h, ds[0]), ds[1..])
  }

  function OutcomesFor(ds: seq<Decision>, key: string): Window {
    if ds == [] then []
    else if ProjectKey(ds[0].project) == key then [Outcome(ds[0].at, ds[0].violation)] + OutcomesFor(ds[1..], key)
    else OutcomesFor(ds[1..], key)
  }

  lemma LastNTwice(a: Window, b: Window, n: nat)
    ensures LastN(LastN(a, n) + b, n) == LastN(a + b, n)
  {
  }

  lemma PushThenMore(w: Window, o: Outcome, rest: Window, n: nat)
    ensures LastN(LastN(w + [o], n) + rest, n) == LastN(w + ([o] + rest), n)
  {
    LastNTwice(w + [o], rest, n);
    assert (w + [o]) + rest == w + ([o] + rest);
  }

  lemma WindowStep(c: Config, h: History, d: Decision, key: string)
    ensures WindowOf(Record(c, h, d), key) ==
            if ProjectKey(d.project) == key
            then LastN(WindowOf(h, key) + [Outcome(d.at, d.violation)], c.windowSize) else WindowOf(h, key)
  {
  }

  /** A window is always the last outcomes of its own project; other projects leave no trace in it. */
  lemma {:induction false} WindowIsRecentOutcomes(c: Config, h: History, ds: seq<Decision>, key: string)
    ensures LastN(WindowOf(Run(c, h, ds), key), c.windowSize)
         == LastN(WindowOf(h, key) + OutcomesFor(ds, key), c.windowSize)
    decreases |ds|
  {
    var w := WindowOf(h, key);
    if ds == [] {
      assert w + [] == w;
    } else {
      var rest := OutcomesFor(ds[1..], key);
      WindowStep(c, h, ds[0], key);
      WindowIsRecentOutcomes(c, Record(c, h, ds[0]), ds[1..], key);
      if ProjectKey(ds[0].project) == key {
        PushThenMore(w, Outcome(ds[0].at, ds[0].violation), rest, c.windowSize);
      }
    }
  }

  lemma {:induction false} WindowStaysBounded(c: Config, h: History, ds: seq<Decision>, key: string)
    requires |WindowOf(h, key)| <= c.windowSize
    ensures |WindowOf(Run(c, h, ds), key)| <= c.windowSize
    decreases |ds|
  {
    if ds != [] {
      WindowStep(c, h, ds[0], key);
      WindowStaysBounded(c, Record(c, h, ds[0]), ds[1..], key);
    }
  }

  /** The outcomes of the decisions recorded under one of the given project ids. */
  function OutcomesOf(ds: seq<Decision>, ids: set<Option<string>>): Window {
    if ds == [] then []
    else (if ds[0].project in ids then [Outcome(ds[0].at, ds[0].violation)] else []) + OutcomesOf(ds[1..], ids)
  }

  /** A project keeps to itself; decisions without a project, or with the id "" or "None", share "global". */
  function Sharing(project: string): set<Option<string>> {
    if project == "global" then {None, Some(""), Some("None"), Some("global")} else {Some(project)}
  }

  lemma SharesExactly(id: Option<string>, project: string)
    requires project !in {"", "None"}
    ensures ProjectKey(id) == project <==> id in Sharing(project)
  {
  }

  lemma {:induction false} OutcomesOfProject(ds: seq<Decision>, project: string)
    requires project !in {"", "None"}
    ensures OutcomesFor(ds, project) == OutcomesOf(ds, Sharing(project))
  {
    if ds != [] {
      SharesExactly(ds[0].project, project);
      OutcomesOfProject(ds[1..], project);
    }
  }

  /** In a run of a new detector every project's window holds the last outcomes recorded under its id. */
  lemma WindowOfProject(c: Config, ds: seq<Decision>, project: string)
    requires project !in {"", "None"}
    ensures var outcomes := OutcomesOf(ds, if project == "global" then {None, Some(""), Some("None"), Some("global")}
                                           else {Some(project)});
            WindowOf(Run(c, map[], ds), project)
            == if |outcomes| <= c.windowSize then outcomes else outcomes[|outcomes| - c.windowSize..]
  {
    WindowFromEmpty(c, ds, project);
    OutcomesOfProject(ds, project);
  }

  lemma WindowFromEmpty(c: Config, ds: seq<Decision>, key: string)
    ensures WindowOf(Run(c, map[], ds), key) == LastN(OutcomesFor(ds, key), c.windowSize)
  {
    WindowIsRecentOutcomes(c, map[], ds, key);
    WindowStaysBounded(c, map[], ds, key);
    assert [] + OutcomesFor(ds, key) == OutcomesFor(ds, key);
  }

  ghost predicate Bounded(c: Config, h: History) {
    forall key :: key in h ==> |h[key]| <= c.windowSize
  }

  /** The window is too narrow for the threshold: the statistical branch is out of reach. */
  predicate TooNarrow(c: Config) {
    c.windowSize as real <= 7.0 * (1.0 + Pos(c.threshold) * Pos(c.threshold))
  }

  lemma {:induction false} OnlyVelocityFreezes(c: Config, h: History, ds: seq<Decision>)
    requires ExactRoot(c.sqrt) && TooNarrow(c) && Bounded(c, h)
    ensures forall f :: f in FreezesIn(c, h, ds) ==> f.1 != Statistical
    decreases |ds|
  {
    if ds != [] {
      if FreezeOf(c, h, ds[0]) == Statistical {
        StatisticalNeedsWideWindow(c, WindowOf(h, ProjectKey(ds[0].project)), ds[0].violation, ds[0].at);
      }
      OnlyVelocityFreezes(c, Record(c, h, ds[0]), ds[1..]);
    }
  }

  /** The shipped defaults, 50 outcomes and 3 standard deviations: every freeze of every run is a velocity freeze. */
  lemma DefaultsNeverFreezeStatistically(sqrt: real -> real, ds: seq<Decision>)
    requires ExactRoot(sqrt)
    ensures forall f :: f in FreezesIn(Config(50, 3.0, sqrt), map[], ds) ==> f.1 in {NoFreeze, Velocity}
  {
    var c := Config(50, 3.0, sqrt);
    assert TooNarrow(c);
    OnlyVelocityFreezes(c, map[], ds);
    forall f | f in FreezesIn(c, map[], ds) ensures f.1 in {NoFreeze, Velocity} {
      assert f.1 != Statistical;
    }
  }

  // ---- exactly which configurations can freeze statistically ----

  /** The width a statistical freeze needs, as a predicate on the number of outcomes. */
  predicate WideEnough(n: nat, t: real) {
    n >= 10 && n as real > 7.0 * (1.0 + Pos(t) * Pos(t))
  }

  function Passes(n: nat): Window {
    seq(n, _ => Outcome(0.0, false))
  }

  function Violations(n: nat): Window {
    seq(n, _ => Outcome(0.0, true))
  }

  lemma PassesThenViolations(n: nat)
    requires n >= 10
    ensures var w := Passes(n - 7) + Violations(7);
            |w| == n && Count(w) == 7 && Count(w[n - 10..]) == 7 && w[n - 5..] == Violations(5)
  {
    var passes, violations := Passes(n - 7), Violations(7);
    CountBounds(passes);
    CountBounds(violations);
    CountSplit(passes, violations);
    var last3 := passes[n - 10..];
    CountBounds(last3);
    CountSplit(last3, violations);
    assert (passes + violations)[n - 10..] == last3 + violations;
  }

  /** A wide enough window of passes and then seven slow violations freezes statistically on the next one. */
  lemma WideWindowFreezes(c: Config)
    requires ExactRoot(c.sqrt) && WideEnough(c.windowSize, c.threshold)
    ensures Decide(c, Passes(c.windowSize - 7) + Violations(7), true, 5.0) == Statistical
  {
    var n := c.windowSize;
    var w := Passes(n - 7) + Violations(7);
    PassesThenViolations(n);
    FreezeExactly(c, w, true, 5.0);
    assert w[|w| - 5] == w[n - 5..][0];
    assert PassesPrevail(w, c.threshold);
  }

  /** The decisions, of no project in particular, that leave a window. */
  function Replay(w: Window): seq<Decision> {
    if w == [] then [] else [Decision(None, w[0].violation, w[0].at)] + Replay(w[1..])
  }

  lemma {:induction false} ReplayOutcomes(w: Window)
    ensures OutcomesFor(Replay(w), "global") == w
  {
    if w != [] {
      ReplayOutcomes(w[1..]);
      assert Replay(w)[1..] == Replay(w[1..]);
      assert w == [w[0]] + w[1..];
    }
  }

  lemma {:induction false} LastFreeze(c: Config, h: History, ds: seq<Decision>, d: Decision)
    ensures (d.project, FreezeOf(c, Run(c, h, ds), d)) in FreezesIn(c, h, ds + [d])
    decreases |ds|
  {
    if ds == [] {
      assert ds + [d] == [d];
    } else {
      LastFreeze(c, Record(c, h, ds[0]), ds[1..], d);
      assert (ds + [d])[0] == ds[0] && (ds + [d])[1..] == ds[1..] + [d];
    }
  }

  ghost predicate FreezesStatistically(c: Config, h: History, ds: seq<Decision>) {
    exists f :: f in FreezesIn(c, h, ds) && f.1 == Statistical
  }

  /** The window and the decision behind a statistical freeze. */
  lemma {:induction false} StatisticalWindow(c: Config, h: History, ds: seq<Decision>) returns (w: Window, now: real)
    requires Bounded(c, h) && FreezesStatistically(c, h, ds)
    ensures |w| <= c.windowSize && Decide(c, w, true, now) == Statistical
    decreases |ds|
  {
    var f :| f in FreezesIn(c, h, ds) && f.1 == Statistical;
    if FreezeOf(c, h, ds[0]) == Statistical {
      w, now := WindowOf(h, ProjectKey(ds[0].project)), ds[0].at;
    } else {
      assert f in FreezesIn(c, Record(c, h, ds[0]), ds[1..]);
      w, now := StatisticalWindow(c, Record(c, h, ds[0]), ds[1..]);
    }
  }

  lemma StatisticalNeedsTen(c: Config, w: Window, violation: bool, now: real)
    requires ExactRoot(c.sqrt) && Decide(c, w, violation, now) == Statistical
    ensures WideEnough(|w|, c.threshold)
  {
    StatisticalCounts(c, w, violation, now);
    StatisticalNeedsWideWindow(c, w, violation, now);
  }

  lemma WiderStill(n: nat, size: nat, t: real)
    requires WideEnough(n, t) && n <= size
    ensures WideEnough(size, t)
  {
  }

  lemma ReplayedWindow(c: Config, w: Window)
    requires |w| == c.windowSize
    ensures WindowOf(Run(c, map[], Replay(w)), "global") == w
  {
    ReplayOutcomes(w);
    WindowFromEmpty(c, Replay(w), "global");
  }

  lemma WidthOfFreeze(c: Config, w: Window, violation: bool, now: real)
    requires ExactRoot(c.sqrt) && |w| <= c.windowSize && Decide(c, w, violation, now) == Statistical
    ensures WideEnough(c.windowSize, c.threshold)
  {
    StatisticalNeedsTen(c, w, violation, now);
    WiderStill(|w|, c.windowSize, c.threshold);
  }

  lemma FreezingNeedsWidth(c: Config, ds: seq<Decision>)
    requires ExactRoot(c.sqrt) && FreezesStatistically(c, map[], ds)
    ensures WideEnough(c.windowSize, c.threshold)
  {
    var w, now := StatisticalWindow(c, map[], ds);
    WidthOfFreeze(c, w, true, now);
  }

  lemma FreezeAfter(c: Config, w: Window, now: real)
    requires |w| == c.windowSize && Decide(c, w, true, now) == Statistical
    ensures FreezesStatistically(c, map[], Replay(w) + [Decision(None, true, now)])
  {
    ReplayedWindow(c, w);
    LastFreeze(c, map[], Replay(w), Decision(None, true, now));
  }

  lemma WidthAllowsFreezing(c: Config) returns (ds: seq<Decision>)
    requires ExactRoot(c.sqrt) && WideEnough(c.windowSize, c.threshold)
    ensures FreezesStatistically(c, map[], ds)
  {
    var w := Passes(c.windowSize - 7) + Violations(7);
    WideWindowFreezes(c);
    FreezeAfter(c, w, 5.0);
    ds := Replay(w) + [Decision(None, true, 5.0)];
  }

  /**
   * Some run of a new detector freezes statistically exactly when its window has at least ten places and more than
   * 7 (1 + threshold squared).
   */
  lemma StatisticalReachableExactly(c: Config)
    requires ExactRoot(c.sqrt)
    ensures (exists ds :: FreezesStatistically(c, map[], ds)) <==> WideEnough(c.windowSize, c.threshold)
  {
    if ds :| FreezesStatistically(c, map[], ds) {
      FreezingNeedsWidth(c, ds);
    }
    if WideEnough(c.windowSize, c.threshold) {
      var ds := WidthAllowsFreezing(c);
    }
  }

  // ---- a streak of violations ----

  function FreezeCount(fs: seq<(Option<string>, Freeze)>, key: string): nat {
    if fs == [] then 0
    else (if ProjectKey(fs[0].0) == key && fs[0].1 != NoFreeze then 1 else 0) + FreezeCount(fs[1..], key)
  }

  lemma CountStep(c: Config, h: History, ds: seq<Decision>, key: string)
    requires ds != []
    ensures FreezeCount(FreezesIn(c, h, ds), key)
         == (if ProjectKey(ds[0].project) == key && FreezeOf(c, h, ds[0]) != NoFreeze then 1 else 0)
          + FreezeCount(FreezesIn(c, Record(c, h, ds[0]), ds[1..]), key)
  {
    assert FreezesIn(c, h, ds)[1..] == FreezesIn(c, Record(c, h, ds[0]), ds[1..]);
  }

  /** The window ends with a pass and then exactly j violations. */
  predicate Streak(w: Window, j: nat) {
    j < |w| && !w[|w| - 1 - j].violation && AllViolations(w[|w| - j..])
  }

  predicate OnlyViolationsFor(ds: seq<Decision>, key: string) {
    forall d :: d in ds && ProjectKey(d.project) == key ==> d.violation
  }

  function StreakBudget(n: nat, j: nat): nat {
    if n <= j || n <= 5 then 0 else if j < 5 then n - 5 else n - j
  }

  /** Where statistical freezes are within reach, the first five violations can freeze, too. */
  function Budget(wide: bool, n: nat, j: nat): nat {
    if !wide then StreakBudget(n, j) else if n <= j then 0 else n - j
  }

  lemma AllViolationsNeverFreeze(c: Config, w: Window, violation: bool, now: real)
    requires ExactRoot(c.sqrt) && AllViolations(w)
    ensures Decide(c, w, violation, now) == NoFreeze
  {
    CountBounds(w);
    FreezeExactly(c, w, violation, now);
  }

  /** While only violations follow, an all-violations window raises nothing more. */
  lemma {:induction false} SaturatedStreak(c: Config, h: History, ds: seq<Decision>, key: string)
    requires ExactRoot(c.sqrt) && AllViolations(WindowOf(h, key)) && OnlyViolationsFor(ds, key)
    ensures FreezeCount(FreezesIn(c, h, ds), key) == 0
    decreases |ds|
  {
    if ds != [] {
      AllViolationsNeverFreeze(c, WindowOf(h, key), ds[0].violation, ds[0].at);
      assert ds[0] in ds;
      SaturatedStreak(c, Record(c, h, ds[0]), ds[1..], key);
      CountStep(c, h, ds, key);
    }
  }

  /** No window of the configuration's size freezes statistically. */
  ghost predicate NeverStatistical(c: Config) {
    forall w, violation, now :: |w| <= c.windowSize ==> Decide(c, w, violation, now) != Statistical
  }

  lemma NotWideNeverStatistical(c: Config)
    requires ExactRoot(c.sqrt) && !WideEnough(c.windowSize, c.threshold)
    ensures NeverStatistical(c)
  {
    forall w, violation, now | |w| <= c.windowSize ensures Decide(c, w, violation, now) != Statistical {
      if Decide(c, w, violation, now) == Statistical {
        WidthOfFreeze(c, w, violation, now);
      }
    }
  }

  lemma StreakNeedsFive(c: Config, w: Window, j: nat, violation: bool, now: real)
    requires ExactRoot(c.sqrt) && NeverStatistical(c) && |w| <= c.windowSize && Streak(w, j) && j < 5
    ensures Decide(c, w, violation, now) == NoFreeze
  {
    FreezeExactly(c, w, violation, now);
    if |w| >= 5 {
      assert w[|w| - 5..][4 - j] == w[|w| - 1 - j];
    }
  }

  lemma StreakGrows(w: Window, j: nat, o: Outcome, n: nat)
    requires Streak(w, j) && |w| <= n && o.violation
    ensures if j + 1 < n then Streak(LastN(w + [o], n), j + 1) else AllViolations(LastN(w + [o], n))
  {
    var r := LastN(w + [o], n);
    if |w| < n {
      assert r == w + [o];
      assert r[|r| - (j + 1)..] == w[|w| - j..] + [o];
      assert r[|r| - 1 - (j + 1)] == w[|w| - 1 - j];
    } else {
      assert r == w[1..] + [o];
      assert r[|r| - (j + 1)..] == w[|w| - j..] + [o];
      if j + 1 < n {
        assert r[|r| - 1 - (j + 1)] == w[|w| - 1 - j];
      } else {
        assert r[|r| - (j + 1)..] == r;
      }
    }
  }

  lemma OneMoreViolation(c: Config, h: History, d: Decision, key: string, j: nat)
    requires |WindowOf(h, key)| <= c.windowSize && Streak(WindowOf(h, key), j)
    requires ProjectKey(d.project) == key && d.violation
    ensures var w := WindowOf(Record(c, h, d), key);
            |w| <= c.windowSize && if j + 1 < c.windowSize then Streak(w, j + 1) else AllViolations(w)
  {
    StreakGrows(WindowOf(h, key), j, Outcome(d.at, true), c.windowSize);
  }

  /** The first decision of a run on a streak: the freezes it raises, and the streak it leaves. */
  lemma StreakStep(c: Config, h: History, ds: seq<Decision>, key: string, j: nat, wide: bool)
    returns (next: History, n: nat)
    requires ExactRoot(c.sqrt) && (wide || NeverStatistical(c)) && ds != [] && OnlyViolationsFor(ds, key)
    requires |WindowOf(h, key)| <= c.windowSize && Streak(WindowOf(h, key), j)
    ensures FreezeCount(FreezesIn(c, h, ds), key) == n + FreezeCount(FreezesIn(c, next, ds[1..]), key)
    ensures OnlyViolationsFor(ds[1..], key) && |WindowOf(next, key)| <= c.windowSize
    ensures if ProjectKey(ds[0].project) != key then n == 0 && Streak(WindowOf(next, key), j)
            else n <= (if wide || j >= 5 then 1 else 0)
                 && if j + 1 < c.windowSize then Streak(WindowOf(next, key), j + 1)
                    else AllViolations(WindowOf(next, key))
  {
    var d := ds[0];
    next := Record(c, h, d);
    n := if ProjectKey(d.project) == key && FreezeOf(c, h, d) != NoFreeze then 1 else 0;
    CountStep(c, h, ds, key);
    WindowStep(c, h, d, key);
    assert d in ds;
    if ProjectKey(d.project) == key {
      OneMoreViolation(c, h, d, key, j);
      if !wide && j < 5 {
        StreakNeedsFive(c, WindowOf(h, key), j, d.violation, d.at);
      }
    }
  }

  /** The freezes left to raise for a project that only violates, however other projects' decisions are interleaved. */
  lemma {:induction false} StreakFreezes(c: Config, h: History, ds: seq<Decision>, key: string, j: nat, wide: bool)
    requires ExactRoot(c.sqrt) && (wide || NeverStatistical(c)) && |WindowOf(h, key)| <= c.windowSize
    requires Streak(WindowOf(h, key), j) && OnlyViolationsFor(ds, key)
    ensures FreezeCount(FreezesIn(c, h, ds), key) <= Budget(wide, c.windowSize, j)
    decreases |ds|
  {
    if ds != [] {
      var next, n := StreakStep(c, h, ds, key, j, wide);
      if ProjectKey(ds[0].project) != key {
        StreakFreezes(c, next, ds[1..], key, j, wide);
      } else if j + 1 < c.windowSize {
        StreakFreezes(c, next, ds[1..], key, j + 1, wide);
      } else {
        SaturatedStreak(c, next, ds[1..], key);
      }
    }
  }

  /**
   * Between one pass and the project's next at most windowSize - 5 freezes are raised for it, or windowSize where
   * statistical freezes are within reach.
   */
  lemma FreezesBetweenPasses(c: Config, before: seq<Decision>, pass: Decision, after: seq<Decision>)
    requires ExactRoot(c.sqrt) && !pass.violation
    requires OnlyViolationsFor(after, ProjectKey(pass.project))
    ensures var h := Run(c, map[], before + [pass]);
            FreezeCount(FreezesIn(c, h, after), ProjectKey(pass.project)) <=
            if WideEnough(c.windowSize, c.threshold) then c.windowSize
            else if c.windowSize < 5 then 0 else c.windowSize - 5
  {
    var key, h := ProjectKey(pass.project), Run(c, map[], before + [pass]);
    WindowAfterPass(c, before, pass);
    if c.windowSize == 0 {
      SaturatedStreak(c, h, after, key);
    } else if WideEnough(c.windowSize, c.threshold) {
      StreakFreezes(c, h, after, key, 0, true);
    } else {
      NotWideNeverStatistical(c);
      StreakFreezes(c, h, after, key, 0, false);
    }
  }

  /** How many freezes were raised on decisions recorded under one of the given ids. */
  function FreezesOf(fs: seq<(Option<string>, Freeze)>, ids: set<Option<string>>): nat {
    if fs == [] then 0
    else (if fs[0].0 in ids && fs[0].1 != NoFreeze then 1 else 0) + FreezesOf(fs[1..], ids)
  }

  lemma {:induction false} FreezesOfProject(fs: seq<(Option<string>, Freeze)>, project: string)
    requires project !in {"", "None"}
    ensures FreezeCount(fs, project) == FreezesOf(fs, Sharing(project))
  {
    if fs != [] {
      SharesExactly(fs[0].0, project);
      FreezesOfProject(fs[1..], project);
    }
  }

  /** The bound for a project's own id. */
  lemma ProjectFreezesBetweenPasses(c: Config, before: seq<Decision>, project: string, at: real, after: seq<Decision>)
    requires ExactRoot(c.sqrt) && project !in {"", "None", "global"}
    requires forall d :: d in after && d.project == Some(project) ==> d.violation
    ensures var h := Run(c, map[], before + [Decision(Some(project), false, at)]);
            FreezesOf(FreezesIn(c, h, after), {Some(project)}) <=
            if WideEnough(c.windowSize, c.threshold) then c.windowSize
            else if c.windowSize < 5 then 0 else c.windowSize - 5
  {
    var pass := Decision(Some(project), false, at);
    FreezesBetweenPasses(c, before, pass, after);
    FreezesOfProject(FreezesIn(c, Run(c, map[], before + [pass]), after), project);
  }

  lemma WindowAfterPass(c: Config, before: seq<Decision>, pass: Decision)
    requires !pass.violation
    ensures var w := WindowOf(Run(c, map[], before + [pass]), ProjectKey(pass.project));
            |w| <= c.windowSize && if c.windowSize > 0 then Streak(w, 0) else w == []
  {
    var key := ProjectKey(pass.project);
    WindowFromEmpty(c, before + [pass], key);
    OutcomesAppend(before, pass, key);
  }

  lemma {:induction false} OutcomesAppend(ds: seq<Decision>, d: Decision, key: string)
    ensures OutcomesFor(ds + [d], key)
         == OutcomesFor(ds, key) + (if ProjectKey(d.project) == key then [Outcome(d.at, d.violation)] else [])
  {
    if ds == [] {
      assert ds + [d] == [d] && [d][1..] == [];
    } else {
      OutcomesAppend(ds[1..], d, key);
      assert (ds + [d])[1..] == ds[1..] + [d];
    }
  }

  // ---- the bound is attained ----

  const VIOLATION := Outcome(0.0, true)

  /** At least ten outcomes, all dated 0.0, the last of them a pass and then j violations. */
  ghost predicate MidBurst(w: Window, n: nat, j: nat) {
    10 <= |w| <= n && (forall i :: 0 <= i < |w| ==> w[i].at == 0.0) && Streak(w, j)
  }

  /** A test on windows that fires in a burst from the sixth violation on. */
  ghost predicate FiresFromSixth(fires: Window -> bool, n: nat) {
    forall w, j: nat :: MidBurst(w, n, j) ==> (fires(w) <==> j >= 5)
  }

  /** How often a test fires while k violations are pushed through a window. */
  function CountAlong(fires: Window -> bool, w: Window, n: nat, k: nat): nat
    decreases k
  {
    if k == 0 then 0 else (if fires(w) then 1 else 0) + CountAlong(fires, LastN(w + [VIOLATION], n), n, k - 1)
  }

  lemma MidBurstGrows(w: Window, n: nat, j: nat)
    requires MidBurst(w, n, j) && j + 1 < n
    ensures MidBurst(LastN(w + [VIOLATION], n), n, j + 1)
  {
    StreakGrows(w, j, VIOLATION, n);
  }

  /** The violations of a burst that find the last pass still in the window, less the first five. */
  lemma {:induction false} CountInBurst(fires: Window -> bool, w: Window, n: nat, j: nat, k: nat)
    requires FiresFromSixth(fires, n) && n >= 10 && j + k == n && (k > 0 ==> MidBurst(w, n, j))
    ensures CountAlong(fires, w, n, k) == StreakBudget(n, j)
    decreases k
  {
    if k > 0 {
      if k > 1 {
        MidBurstGrows(w, n, j);
      }
      CountInBurst(fires, LastN(w + [VIOLATION], n), n, j + 1, k - 1);
    }
  }

  function Freezing(c: Config): Window -> bool {
    w => Decide(c, w, true, 0.0) != NoFreeze
  }

  lemma FreezesFromSixth(c: Config, w: Window, j: nat)
    requires ExactRoot(c.sqrt) && NeverStatistical(c) && MidBurst(w, c.windowSize, j)
    ensures Freezing(c)(w) <==> j >= 5
  {
    if j >= 5 {
      CountBounds(w);
      FreezeExactly(c, w, true, 0.0);
      var tail, last5 := w[|w| - j..], w[|w| - 5..];
      assert w[|w| - 1] == tail[j - 1];
      forall i | 0 <= i < |last5| ensures last5[i].violation {
        assert last5[i] == tail[j - 5 + i];
      }
    } else {
      StreakNeedsFive(c, w, j, true, 0.0);
    }
  }

  /** A burst of violations for one project, all at one instant. */
  function Burst(key: string, k: nat): seq<Decision> {
    if k == 0 then [] else [Decision(Some(key), true, 0.0)] + Burst(key, k - 1)
  }

  lemma {:induction false} BurstOnlyViolates(key: string, k: nat)
    ensures OnlyViolationsFor(Burst(key, k), key)
  {
    if k > 0 {
      BurstOnlyViolates(key, k - 1);
    }
  }

  lemma BurstStep(c: Config, h: History, key: string, k: nat) returns (next: History)
    requires ProjectKey(Some(key)) == key && k > 0
    ensures WindowOf(next, key) == LastN(WindowOf(h, key) + [VIOLATION], c.windowSize)
    ensures FreezeCount(FreezesIn(c, h, Burst(key, k)), key)
         == (if Freezing(c)(WindowOf(h, key)) then 1 else 0) + FreezeCount(FreezesIn(c, next, Burst(key, k - 1)), key)
  {
    next := Record(c, h, Decision(Some(key), true, 0.0));
    CountStep(c, h, Burst(key, k), key);
    assert Burst(key, k)[1..] == Burst(key, k - 1);
  }

  lemma {:induction false} BurstRuns(c: Config, h: History, key: string, k: nat)
    requires ProjectKey(Some(key)) == key
    ensures FreezeCount(FreezesIn(c, h, Burst(key, k)), key)
         == CountAlong(Freezing(c), WindowOf(h, key), c.windowSize, k)
    decreases k
  {
    if k > 0 {
      var next := BurstStep(c, h, key, k);
      BurstRuns(c, next, key, k - 1);
    }
  }

  lemma TenPasses(w: Window, n: nat)
    requires w == seq(10, _ => Outcome(0.0, false)) && n >= 10
    ensures MidBurst(w, n, 0)
  {
  }

  /** After ten passes a burst of violations raises exactly windowSize - 5 freezes: `FreezesBetweenPasses` is sharp. */
  lemma BurstAttainsBound(c: Config, h: History, key: string)
    requires ExactRoot(c.sqrt) && !WideEnough(c.windowSize, c.threshold) && c.windowSize >= 10
    requires key !in {"", "None"}
    requires WindowOf(h, key) == seq(10, _ => Outcome(0.0, false))
    ensures OnlyViolationsFor(Burst(key, c.windowSize), key)
    ensures FreezeCount(FreezesIn(c, h, Burst(key, c.windowSize)), key) == c.windowSize - 5
  {
    var n := c.windowSize;
    NotWideNeverStatistical(c);
    forall w, j: nat | MidBurst(w, n, j) ensures Freezing(c)(w) <==> j >= 5 {
      FreezesFromSixth(c, w, j);
    }
    TenPasses(WindowOf(h, key), n);
    CountInBurst(Freezing(c), WindowOf(h, key), n, 0, n);
    BurstRuns(c, h, key, n);
    BurstOnlyViolates(key, n);
  }

  // ---- the detector object ----

  class Detector {
    const c: Config
    var history: History

    constructor (c: Config)
      ensures this.c == c && history == map[]
    {
      this.c := c;
      history := map[];
    }

    method RecordDecision(project: Option<string>, violation: bool, now: real) returns (freeze: Freeze)
      modifies this
      ensures history == Record(c, old(history), Decision(project, violation, now))
      ensures freeze == FreezeOf(c, old(history), Decision(project, violation, now))
      ensures var id := if project in {None, Some(""), Some("None")} then "global" else project.value;
              var before := if id in old(history) then old(history)[id] else [];
              var all := before + [Outcome(now, violation)];
              && history.Keys == old(history).Keys + {id}
              && (forall other :: other in old(history) && other != id ==> history[other] == old(history)[other])
              && history[id] == (if |all| <= c.windowSize then all else all[|all| - c.windowSize..])
              && freeze == Decide(c, before, violation, now)
    {
      var key := ProjectKey(project);
      if key !in history {
        history := history[key := []];
      }
      var w := history[key];
      freeze := Judge(w, violation, now);
      history := history[key := LastN(w + [Outcome(now, violation)], c.windowSize)];
    }

    /** The tests on the window as it stands before the new outcome enters it. */
    method Judge(w: Window, violation: bool, now: real) returns (freeze: Freeze)
      ensures freeze == Decide(c, w, violation, now)
    {
      if |w| < 10 {
        return NoFreeze;
      }
      var mean, variance := WindowStatistics(w);
      var stddev := c.sqrt(variance);
      if stddev == 0.0 {
        return NoFreeze;
      }
      var zScore := ((if violation then 1.0 else 0.0) - mean) / stddev;
      var recent5 := w[|w| - 5..];
      if recent5[0].violation && recent5[1].violation && recent5[2].violation && recent5[3].violation
         && recent5[4].violation
      {
        assert AllViolations(recent5);
        if now - recent5[0].at < 5.0 && violation {
          return Velocity;
        }
      }
      if zScore > c.threshold && violation {
        var recentMean, _ := WindowStatistics(w[|w| - 10..]);
        if recentMean > 0.6 {
          return Statistical;
        }
      }
      return NoFreeze;
    }

    static method WindowStatistics(w: Window) returns (mean: real, variance: real)
      requires w != []
      ensures mean == Mean(w) && variance == Variance(w)
    {
      var sum := 0.0;
      for i := 0 to |w|
        invariant sum == Sum(w[..i])
      {
        assert w[..i + 1][..i] == w[..i];
        sum := sum + Value(w[i]);
      }
      assert w[..|w|] == w;
      mean := sum / |w| as real;
      var squares := 0.0;
      for i := 0 to |w|
        invariant squares == SquaredDeviations(w[..i], mean)
      {
        assert w[..i + 1][..i] == w[..i];
        squares := squares + (Value(w[i]) - mean) * (Value(w[i]) - mean);
      }
      variance := squares / |w| as real;
    }
  }
}
