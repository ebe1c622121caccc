/** The OLS-MOSUM break detector of BFAST Monitor (src/workflows.rs, lines
    86-145): residuals over the monitoring period, their prefix sums, the
    moving sums over a window of `floor(h * n_hist)` residuals, and the scan
    for the first moving sum that crosses the boundary. */
module Mosum {
  import opened Common
  import opened Harmonic

  /** The two-point table of critical values. */
  function CriticalValue(alpha: real): (c: real)
    ensures c == 1.36 || c == 1.63
    ensures c == 1.36 <==> alpha <= 0.05
  {
    if alpha <= 0.05 then 1.36 else 1.63
  }

  /** `(h * n_hist).floor() as usize`: the cast saturates, so a negative
      product gives an empty window. */
  function WindowSize(h: real, histLen: nat): (w: nat)
    ensures h * histLen as real >= 0.0 ==> w as real <= h * histLen as real < w as real + 1.0
    ensures h * histLen as real < 0.0 ==> w == 0
  {
    var f := (h * histLen as real).Floor;
    if f < 0 then 0 else f
  }

  /** Sum of `r[lo..hi]`. */
  function Sum(r: seq<real>, lo: nat, hi: nat): real
    requires lo <= hi <= |r|
    decreases hi - lo
  {
    if lo == hi then 0.0 else Sum(r, lo, hi - 1) + r[hi - 1]
  }

  /** A sum splits at any midpoint; in particular a moving sum is a
      difference of two prefix sums. */
  lemma {:induction false} SumSplit(r: seq<real>, lo: nat, mid: nat, hi: nat)
    requires lo <= mid <= hi <= |r|
    ensures Sum(r, lo, hi) == Sum(r, lo, mid) + Sum(r, mid, hi)
    decreases hi - mid
  {
    if mid < hi {
      SumSplit(r, lo, mid, hi - 1);
    }
  }

  /** A sum only reads the summed positions. */
  lemma {:induction false} SumSameRange(r: seq<real>, s: seq<real>, lo: nat, hi: nat)
    requires lo <= hi <= |r| && hi <= |s|
    requires forall i :: lo <= i < hi ==> r[i] == s[i]
    ensures Sum(r, lo, hi) == Sum(s, lo, hi)
    decreases hi - lo
  {
    if lo < hi {
      SumSameRange(r, s, lo, hi - 1);
    }
  }

  /** The moving sum ending just before position `i`: `cusum[i] - cusum[i - w]`. */
  function MovingSum(r: seq<real>, w: nat, i: nat): real
    requires w <= i <= |r|
  {
    Sum(r, i - w, i)
  }

  /** The boundary test `|m| / (sigma sqrt(n)) > c sqrt(1 + k/n)` with both
      sides squared and multiplied by `n`. With `n = 0` the boundary is
      infinite and is never crossed. */
  predicate Crosses(m: real, sigmaSq: real, n: nat, k: nat, c: real): (crosses: bool)
    ensures crosses ==> n > 0
    ensures sigmaSq >= 0.0 && crosses ==> m != 0.0
  {
    BoundaryNonNegative(sigmaSq, n, k, c);
    n > 0 && m * m > c * c * sigmaSq * (n + k) as real
  }

  /** The squared boundary `c^2 sigma^2 (n + k)` is never negative when
      `sigma^2` is not. */
  lemma BoundaryNonNegative(sigmaSq: real, n: nat, k: nat, c: real)
    ensures sigmaSq >= 0.0 ==> c * c * sigmaSq * (n + k) as real >= 0.0
  {
    if sigmaSq >= 0.0 {
      SquareNonNegative(c);
      NonNegativeProduct(c * c, sigmaSq);
      NonNegativeProduct(c * c * sigmaSq, (n + k) as real);
    }
  }

  /** Whether the moving sum at position `i` (the `k = i - w + 1`-th moving
      sum) crosses the boundary. */
  predicate CrossesAt(r: seq<real>, w: nat, n: nat, sigmaSq: real, c: real, i: nat)
    requires w <= i <= |r|
  {
    Crosses(MovingSum(r, w, i), sigmaSq, n, i - w + 1, c)
  }

  /** The first position at or after `i` whose moving sum crosses. */
  function FirstCrossing(r: seq<real>, w: nat, n: nat, sigmaSq: real, c: real, i: nat): (b: Option<nat>)
    requires w <= i <= |r|
    ensures b.Some? ==> i <= b.value < |r| && CrossesAt(r, w, n, sigmaSq, c, b.value)
    ensures b.Some? ==> forall j :: i <= j < b.value ==> !CrossesAt(r, w, n, sigmaSq, c, j)
    ensures b.None? ==> forall j :: i <= j < |r| ==> !CrossesAt(r, w, n, sigmaSq, c, j)
    decreases |r| - i
  {
    if i == |r| then None
    else if CrossesAt(r, w, n, sigmaSq, c, i) then Some(i)
    else FirstCrossing(r, w, n, sigmaSq, c, i + 1)
  }

  /** The index of the reported break within the monitoring period, if any. */
  function BreakIndex(yMonitor: seq<real>, yPred: seq<real>, histLen: nat, sigmaSq: real, h: real, alpha: real)
    : (b: Option<nat>)
    requires |yPred| == |yMonitor|
    ensures b.Some? ==>
      var w := WindowSize(h, histLen);
      var r := Sub(yMonitor, yPred);
      w <= b.value < |yMonitor| &&
      CrossesAt(r, w, histLen, sigmaSq, CriticalValue(alpha), b.value) &&
      forall j :: w <= j < b.value ==> !CrossesAt(r, w, histLen, sigmaSq, CriticalValue(alpha), j)
    ensures b.None? && WindowSize(h, histLen) <= |yMonitor| ==>
      var w := WindowSize(h, histLen);
      forall j :: w <= j < |yMonitor| ==>
        !CrossesAt(Sub(yMonitor, yPred), w, histLen, sigmaSq, CriticalValue(alpha), j)
  {
    if |yMonitor| == 0 then None
    else
      var w := WindowSize(h, histLen);
      var r := Sub(yMonitor, yPred);
      if |r| < w then None
      else FirstCrossing(r, w, histLen, sigmaSq, CriticalValue(alpha), w)
  }

  /** `detect_mosum_break` as a value: `(0, 0)` without a break, else the
      date and the absolute residual at the break. */
  function MosumBreak(yMonitor: seq<real>, yPred: seq<real>, dates: seq<real>, histLen: nat,
                      sigmaSq: real, h: real, alpha: real): (r: (real, real))
    requires |yPred| == |yMonitor| == |dates|
    ensures r.1 >= 0.0
    ensures BreakIndex(yMonitor, yPred, histLen, sigmaSq, h, alpha).None? ==> r == (0.0, 0.0)
    ensures BreakIndex(yMonitor, yPred, histLen, sigmaSq, h, alpha).Some? ==>
      var b := BreakIndex(yMonitor, yPred, histLen, sigmaSq, h, alpha).value;
      r == (dates[b], Abs(yMonitor[b] - yPred[b]))
  {
    match BreakIndex(yMonitor, yPred, histLen, sigmaSq, h, alpha)
    case None => (0.0, 0.0)
    case Some(b) => (dates[b], Abs(yMonitor[b] - yPred[b]))
  }

  /** The `cusum` buffer: `cusum[0] = 0` and `cusum[i + 1] = cusum[i] + r[i]`. */
  method PrefixSums(r: seq<real>) returns (cusum: array<real>)
    ensures cusum.Length == |r| + 1
    ensures forall j :: 0 <= j <= |r| ==> cusum[j] == Sum(r, 0, j)
  {
    cusum := new real[|r| + 1](_ => 0.0);
    for i := 0 to |r|
      invariant forall j :: 0 <= j <= i ==> cusum[j] == Sum(r, 0, j)
    {
      cusum[i + 1] := cusum[i] + r[i];
    }
  }

  /** The early-return scan: the first position `b >= w` whose moving sum
      `cusum[b] - cusum[b - w]` crosses the boundary. */
  method ScanMosum(r: seq<real>, cusum: seq<real>, w: nat, n: nat, sigmaSq: real, c: real)
    returns (b: Option<nat>)
    requires w <= |r| && |cusum| == |r| + 1
    requires forall j :: 0 <= j <= |r| ==> cusum[j] == Sum(r, 0, j)
    ensures b == FirstCrossing(r, w, n, sigmaSq, c, w)
  {
    for i := w to |r|
      invariant forall j :: w <= j < i ==> !CrossesAt(r, w, n, sigmaSq, c, j)
    {
      MovingSumFromPrefix(r, cusum, w, i);
      if Crosses(cusum[i] - cusum[i - w], sigmaSq, n, i - w + 1, c) {
        FirstCrossingIs(r, w, n, sigmaSq, c, i);
        return Some(i);
      }
    }
    NoCrossingIsNone(r, w, n, sigmaSq, c);
    return None;
  }

  /** `detect_mosum_break`: residuals, prefix sums, then the scan. The
      standardisation of each moving sum is folded into `Crosses`. */
  method DetectMosumBreak(yMonitor: seq<real>, yPred: seq<real>, dates: seq<real>, histLen: nat,
                          sigmaSq: real, h: real, alpha: real) returns (breakDate: real, magnitude: real)
    requires |yPred| == |yMonitor| == |dates|
    ensures (breakDate, magnitude) == MosumBreak(yMonitor, yPred, dates, histLen, sigmaSq, h, alpha)
  {
    if |yMonitor| == 0 {
      return 0.0, 0.0;
    }
    var w := WindowSize(h, histLen);
    var residuals := Sub(yMonitor, yPred);
    var cusum := PrefixSums(residuals);
    if |residuals| < w {
      return 0.0, 0.0;
    }
    var b := ScanMosum(residuals, cusum[..], w, histLen, sigmaSq, CriticalValue(alpha));
    match b
    case None =>
      return 0.0, 0.0;
    case Some(i) =>
      return dates[i], Abs(yMonitor[i] - yPred[i]);
  }

  /** A moving sum is the difference of two prefix sums. */
  lemma MovingSumFromPrefix(r: seq<real>, prefix: seq<real>, w: nat, b: nat)
    requires w <= b <= |r| && |prefix| == |r| + 1
    requires forall j :: 0 <= j <= |r| ==> prefix[j] == Sum(r, 0, j)
    ensures prefix[b] - prefix[b - w] == MovingSum(r, w, b)
  {
    SumSplit(r, 0, b - w, b);
  }

  /** Without any crossing there is no first one. */
  lemma NoCrossingIsNone(r: seq<real>, w: nat, n: nat, sigmaSq: real, c: real)
    requires w <= |r|
    requires forall j :: w <= j < |r| ==> !CrossesAt(r, w, n, sigmaSq, c, j)
    ensures FirstCrossing(r, w, n, sigmaSq, c, w) == None
  {
  }

  /** A crossing with no earlier crossing is the first one. */
  lemma FirstCrossingIs(r: seq<real>, w: nat, n: nat, sigmaSq: real, c: real, b: nat)
    requires w <= b < |r| && CrossesAt(r, w, n, sigmaSq, c, b)
    requires forall j :: w <= j < b ==> !CrossesAt(r, w, n, sigmaSq, c, j)
    ensures FirstCrossing(r, w, n, sigmaSq, c, w) == Some(b)
  {
  }

  lemma NonNegativeProduct(a: real, b: real)
    requires a >= 0.0 && b >= 0.0
    ensures a * b >= 0.0
  {
    if a > 0.0 && b > 0.0 {
      MulPositive(a, b);
    }
  }

  /** A zero moving sum never crosses a boundary with `sigma^2 >= 0`. */
  lemma ZeroNeverCrosses(sigmaSq: real, n: nat, k: nat, c: real)
    requires sigmaSq >= 0.0
    ensures !Crosses(0.0, sigmaSq, n, k, c)
  {
    SquareNonNegative(c);
    NonNegativeProduct(c * c, sigmaSq);
    NonNegativeProduct(c * c * sigmaSq, (n + k) as real);
  }

  /** The three no-break cases: an empty monitoring period, no complete
      window (`len <= window_size`), and an empty window, whose moving sums
      are all zero. */
  lemma NoBreakCases(yMonitor: seq<real>, yPred: seq<real>, histLen: nat, sigmaSq: real, h: real, alpha: real)
    requires |yPred| == |yMonitor|
    requires |yMonitor| == 0 || |yMonitor| <= WindowSize(h, histLen) || (WindowSize(h, histLen) == 0 && sigmaSq >= 0.0)
    ensures BreakIndex(yMonitor, yPred, histLen, sigmaSq, h, alpha).None?
  {
    var w := WindowSize(h, histLen);
    var b := BreakIndex(yMonitor, yPred, histLen, sigmaSq, h, alpha);
    if b.Some? && w == 0 && sigmaSq >= 0.0 {
      assert false;
    }
  }

  /** The last monitoring observation is never inside a moving-sum window:
      whether and where a break is reported does not depend on it. */
  lemma {:induction false} FirstCrossingIgnoresLast(r: seq<real>, s: seq<real>, w: nat, n: nat, sigmaSq: real, c: real, i: nat)
    requires |r| == |s| > 0 && w <= i <= |r| && r[..|r| - 1] == s[..|s| - 1]
    ensures FirstCrossing(r, w, n, sigmaSq, c, i) == FirstCrossing(s, w, n, sigmaSq, c, i)
    decreases |r| - i
  {
    if i < |r| {
      forall j | i - w <= j < i
        ensures r[j] == s[j]
      {
        assert r[j] == r[..|r| - 1][j];
      }
      SumSameRange(r, s, i - w, i);
      FirstCrossingIgnoresLast(r, s, w, n, sigmaSq, c, i + 1);
    }
  }

  lemma BreakIndexIgnoresLastObservation(yMonitor: seq<real>, yPred: seq<real>, histLen: nat,
                                         sigmaSq: real, h: real, alpha: real, v: real)
    requires |yPred| == |yMonitor| > 0
    ensures BreakIndex(yMonitor[..|yMonitor| - 1] + [v], yPred, histLen, sigmaSq, h, alpha)
         == BreakIndex(yMonitor, yPred, histLen, sigmaSq, h, alpha)
  {
    var y' := yMonitor[..|yMonitor| - 1] + [v];
    var r := Sub(yMonitor, yPred);
    var s := Sub(y', yPred);
    assert r[..|r| - 1] == s[..|s| - 1];
    var w := WindowSize(h, histLen);
    if w <= |r| {
      FirstCrossingIgnoresLast(r, s, w, histLen, sigmaSq, CriticalValue(alpha), w);
    }
  }

  /** A large deviation at the last monitoring date alone is never
      reported: with predictions `[5, 6, 7, 8]`, observations
      `[5, 6, 7, 20]`, a history of 4 values, `sigma = 0` and `h = 0.25`
      (a window of one residual), no moving sum covers the residual 12. */
  lemma LastDeviationNotReported(yMonitor: seq<real>, yPred: seq<real>, alpha: real)
    requires yPred == [5.0, 6.0, 7.0, 8.0] && yMonitor == [5.0, 6.0, 7.0, 20.0]
    ensures Abs(yMonitor[3] - yPred[3]) == 12.0
    ensures BreakIndex(yMonitor, yPred, 4, 0.0, 0.25, alpha).None?
  {
    assert 0.25 * 4 as real == 1.0;
    assert WindowSize(0.25, 4) == 1;
    var r := Sub(yMonitor, yPred);
    assert r[0] == 0.0 && r[1] == 0.0 && r[2] == 0.0;
    forall j | 1 <= j < |r|
      ensures !CrossesAt(r, 1, 4, 0.0, CriticalValue(alpha), j)
    {
      assert MovingSum(r, 1, j) == Sum(r, j - 1, j - 1) + r[j - 1];
      ZeroSigmaCrossesIffNonZero(MovingSum(r, 1, j), 4, j, CriticalValue(alpha));
    }
    NoCrossingIsNone(r, 1, 4, 0.0, CriticalValue(alpha));
  }

  lemma SquareMonotone(a: real, b: real)
    requires a >= 0.0 && b >= 0.0
    ensures a > b <==> a * a > b * b
  {
    if a > b {
      MulPositive(a - b, a + b);
      assert a * a - b * b == (a - b) * (a + b);
    } else {
      NonNegativeProduct(b - a, b + a);
      assert b * b - a * a == (b - a) * (b + a);
    }
  }

  lemma DivGreater(a: real, s: real, bound: real)
    requires s > 0.0
    ensures a / s > bound <==> a > bound * s
  {
    assert a / s * s == a;
    if a / s > bound {
      MulPositive(a / s - bound, s);
      assert (a / s - bound) * s == a - bound * s;
    } else {
      NonNegativeProduct(bound - a / s, s);
      assert (bound - a / s) * s == bound * s - a;
    }
  }

  /** The squared test agrees with the test as written, `|m| / (sigma sqrt(n))
      > c sqrt(1 + k/n)`, for every positive `sigma` and `n`, given the
      non-negative square roots `sqrtN` of `n` and `root` of `1 + k/n`. */
  lemma CrossesMatchesStandardizedTest(m: real, sigma: real, n: nat, k: nat, c: real, sqrtN: real, root: real)
    requires sigma > 0.0 && n > 0 && c > 0.0
    requires sqrtN > 0.0 && sqrtN * sqrtN == n as real
    requires root >= 0.0 && root * root == 1.0 + k as real / n as real
    ensures Abs(m) / (sigma * sqrtN) > c * root <==> Crosses(m, sigma * sigma, n, k, c)
  {
    var s := sigma * sqrtN;
    MulPositive(sigma, sqrtN);
    DivGreater(Abs(m), s, c * root);
    var bound := c * root * s;
    NonNegativeProduct(c, root);
    NonNegativeProduct(c * root, s);
    SquareMonotone(Abs(m), bound);
    assert Abs(m) * Abs(m) == m * m;
    assert (1.0 + k as real / n as real) * n as real == (n + k) as real;
    calc {
      bound * bound;
      (c * c) * (root * root) * (sigma * sigma) * (sqrtN * sqrtN);
      (c * c) * (sigma * sigma) * ((1.0 + k as real / n as real) * n as real);
      c * c * (sigma * sigma) * (n + k) as real;
    }
  }

  /** With `sigma = 0` every non-zero moving sum divides to an infinity and
      crosses, while a zero one divides to NaN and does not. */
  lemma ZeroSigmaCrossesIffNonZero(m: real, n: nat, k: nat, c: real)
    requires n > 0
    ensures Crosses(m, 0.0, n, k, c) <==> m != 0.0
  {
    assert c * c * 0.0 * (n + k) as real == 0.0;
    if m != 0.0 {
      MulPositive(m, m);
    }
  }
}
