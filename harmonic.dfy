/** The harmonic regression used by BFAST Monitor: the design matrix, the
    least-squares fit over the history period and the prediction over the
    monitoring period (src/workflows.rs, lines 12-83). */
module Harmonic {
  import opened Common

  /** The `f64` constant `2.0 * PI`. */
  const TwoPi: real := 6.283185307179586

  /** The platform's `cos` and `sin`, left uninterpreted. */
  datatype Trig = Trig(cos: real -> real, sin: real -> real)

  /** A dense matrix, one sequence per row. */
  type Matrix = seq<seq<real>>

  /** Whether a least-squares solver, when it succeeds on a non-empty
      matrix, returns one coefficient per column. */
  ghost predicate SolvesPerColumn(s: (Matrix, seq<real>) -> Option<seq<real>>) {
    forall x: Matrix, y: seq<real> :: |x| > 0 && s(x, y).Some? ==> |s(x, y).value| == |x[0]|
  }

  function NoSolution(x: Matrix, y: seq<real>): Option<seq<real>> {
    None
  }

  /** The SVD solve with tolerance 1e-10, an external routine: it either fails
      or returns a coefficient vector. Its optimality is not modelled. */
  type Solver = s: (Matrix, seq<real>) -> Option<seq<real>> | SolvesPerColumn(s)
    witness NoSolution

  /** Number of regression coefficients: intercept, trend and one cosine/sine
      pair per harmonic. */
  function NumCoeffs(order: nat): nat {
    2 * order + 2
  }

  /** The angle `2 pi j t` of harmonic `j` at time `t`. */
  function Freq(j: nat, t: real): real {
    TwoPi * j as real * t
  }

  /** The value of basis function `c` at time `t` (column 0 for `c <= 0`). */
  function Basis(trig: Trig, t: real, c: int): real {
    if c <= 0 then 1.0
    else if c == 1 then t
    else if c % 2 == 0 then trig.cos(Freq(c / 2, t))
    else trig.sin(Freq(c / 2, t))
  }

  /** Columns `2j` and `2j+1` hold the cosine and sine of harmonic `j`. */
  lemma BasisHarmonicColumns(trig: Trig, t: real, j: nat)
    requires 1 <= j
    ensures Basis(trig, t, 2 * j) == trig.cos(Freq(j, t))
    ensures Basis(trig, t, 2 * j + 1) == trig.sin(Freq(j, t))
  {
    assert (2 * j) / 2 == j && (2 * j) % 2 == 0;
    assert (2 * j + 1) / 2 == j && (2 * j + 1) % 2 == 1;
  }

  function DesignRow(trig: Trig, t: real, order: nat): (row: seq<real>)
    ensures |row| == NumCoeffs(order)
    ensures forall c :: 0 <= c < |row| ==> row[c] == Basis(trig, t, c)
  {
    seq(NumCoeffs(order), c => Basis(trig, t, c))
  }

  /** The design matrix: one row per date. */
  function DesignMatrix(trig: Trig, dates: seq<real>, order: nat): (x: Matrix)
    ensures |x| == |dates|
    ensures forall i :: 0 <= i < |dates| ==> x[i] == DesignRow(trig, dates[i], order)
  {
    seq(|dates|, i requires 0 <= i < |dates| => DesignRow(trig, dates[i], order))
  }

  /** For order 1, the row of `t` is `[1, t, cos(2 pi t), sin(2 pi t)]`. */
  lemma DesignRowOrderOne(trig: Trig, t: real)
    ensures DesignRow(trig, t, 1) == [1.0, t, trig.cos(TwoPi * t), trig.sin(TwoPi * t)]
  {
    BasisHarmonicColumns(trig, t, 1);
  }

  /** `build_design_matrix`: fills a zeroed `|dates|` by `2*order+2` matrix
      row by row. */
  method BuildDesignMatrix(trig: Trig, dates: seq<real>, order: nat) returns (x: array2<real>)
    ensures x.Length0 == |dates| && x.Length1 == NumCoeffs(order)
    ensures forall i :: 0 <= i < |dates| ==> x[i, 0] == 1.0 && x[i, 1] == dates[i]
    ensures forall i, c :: 0 <= i < |dates| && 0 <= c < NumCoeffs(order) ==>
      x[i, c] == DesignMatrix(trig, dates, order)[i][c]
  {
    var n := |dates|;
    var numCoeffs := 2 * order + 2;
    x := new real[n, numCoeffs]((i, c) => 0.0);
    for i := 0 to n
      invariant forall i', c :: 0 <= i' < i && 0 <= c < numCoeffs ==> x[i', c] == Basis(trig, dates[i'], c)
    {
      var t := dates[i];
      x[i, 0] := 1.0;
      x[i, 1] := t;
      for j := 1 to order + 1
        invariant forall i', c :: 0 <= i' < i && 0 <= c < numCoeffs ==> x[i', c] == Basis(trig, dates[i'], c)
        invariant forall c :: 0 <= c < 2 * j ==> x[i, c] == Basis(trig, t, c)
      {
        var freq := Freq(j, t);
        BasisHarmonicColumns(trig, t, j);
        x[i, 2 * j] := trig.cos(freq);
        x[i, 2 * j + 1] := trig.sin(freq);
      }
    }
  }

  /** Sum of `a[c] * b[c]` over the first `n` positions. */
  function DotN(a: seq<real>, b: seq<real>, n: nat): real
    requires n <= |a| && n <= |b|
  {
    if n == 0 then 0.0 else DotN(a, b, n - 1) + a[n - 1] * b[n - 1]
  }

  lemma DotNStep(a: seq<real>, b: seq<real>, n: nat)
    requires n < |a| && n < |b|
    ensures DotN(a, b, n + 1) == DotN(a, b, n) + b[n] * a[n]
  {
  }

  function Dot(a: seq<real>, b: seq<real>): real
    requires |a| == |b|
  {
    DotN(a, b, |a|)
  }

  /** Matrix-vector product `x * beta`. */
  function MatVec(x: Matrix, beta: seq<real>): (r: seq<real>)
    requires forall i :: 0 <= i < |x| ==> |x[i]| == |beta|
    ensures |r| == |x|
  {
    seq(|x|, i requires 0 <= i < |x| => Dot(x[i], beta))
  }

  /** Element-wise difference `a - b`. */
  function Sub(a: seq<real>, b: seq<real>): (r: seq<real>)
    requires |a| == |b|
    ensures |r| == |a| && forall i :: 0 <= i < |a| ==> r[i] == a[i] - b[i]
  {
    seq(|a|, i requires 0 <= i < |a| => a[i] - b[i])
  }

  /** Sum of squares; never negative. */
  function SumSq(r: seq<real>): (s: real)
    ensures s >= 0.0
  {
    if |r| == 0 then 0.0
    else
      var last := r[|r| - 1];
      SquareNonNegative(last);
      SumSq(r[..|r| - 1]) + last * last
  }

  /** A zero sum of squares means every term is zero: a perfect fit. */
  lemma {:induction false} SumSqZero(r: seq<real>)
    requires SumSq(r) == 0.0
    ensures forall i :: 0 <= i < |r| ==> r[i] == 0.0
  {
    if |r| > 0 {
      var last := r[|r| - 1];
      var front := r[..|r| - 1];
      SquareNonNegative(last);
      assert SumSq(r) == SumSq(front) + last * last;
      assert last * last == 0.0;
      ProductZero(last, last);
      SumSqZero(front);
      assert forall i :: 0 <= i < |front| ==> front[i] == r[i];
    }
  }

  lemma MulPositive(a: real, b: real)
    requires (a > 0.0 && b > 0.0) || (a < 0.0 && b < 0.0)
    ensures a * b > 0.0
  {
  }

  lemma ProductZero(a: real, b: real)
    requires a * b == 0.0
    ensures a == 0.0 || b == 0.0
  {
  }

  lemma SquareNonNegative(x: real)
    ensures x * x >= 0.0
  {
    if x != 0.0 {
      MulPositive(x, x);
    }
  }

  /** The fitted model. The residual standard deviation `sigma` is kept
      squared: `sigmaSq = SSE / df`. */
  datatype HarmonicModel = HarmonicModel(coefficients: seq<real>, sigmaSq: real)

  /** `fit_harmonic_model`: ordinary least squares over the history period. */
  function FitHarmonicModel(trig: Trig, solve: Solver, y: seq<real>, dates: seq<real>, order: nat)
    : (r: Result<HarmonicModel>)
    requires |y| == |dates|
    ensures r == Err(NotEnoughData) <==> |y| < NumCoeffs(order)
    ensures |y| == NumCoeffs(order) ==> r == Err(ComputationError)
    ensures |y| >= NumCoeffs(order) && r.Err? ==> r == Err(ComputationError)
    ensures r.Ok? <==> |y| > NumCoeffs(order) && solve(DesignMatrix(trig, dates, order), y).Some?
    ensures r.Ok? ==>
      var x := DesignMatrix(trig, dates, order);
      var m := r.value;
      m.coefficients == solve(x, y).value &&
      |m.coefficients| == NumCoeffs(order) &&
      m.sigmaSq >= 0.0 &&
      m.sigmaSq * (|y| - NumCoeffs(order)) as real == SumSq(Sub(y, MatVec(x, m.coefficients)))
  {
    if |y| < NumCoeffs(order) then
      Err(NotEnoughData)
    else
      var x := DesignMatrix(trig, dates, order);
      match solve(x, y)
      case None => Err(ComputationError)
      case Some(coeffs) =>
        var sumSqErr := SumSq(Sub(y, MatVec(x, coeffs)));
        var df := |y| - NumCoeffs(order);
        if df <= 0 then
          Err(ComputationError)
        else
          Ok(HarmonicModel(coeffs, sumSqErr / df as real))
  }

  /** `predict_harmonic_model`: the model evaluated at each date. */
  function PredictHarmonicModel(trig: Trig, model: HarmonicModel, dates: seq<real>, order: nat): (r: seq<real>)
    requires |model.coefficients| == NumCoeffs(order)
    ensures |r| == |dates|
  {
    MatVec(DesignMatrix(trig, dates, order), model.coefficients)
  }

  /** Independent statement of the harmonic series: the seasonal part of
      the first `k` harmonics. */
  function Seasonal(trig: Trig, coeffs: seq<real>, t: real, k: nat): real
    requires 2 * k + 2 <= |coeffs|
  {
    if k == 0 then 0.0
    else
      Seasonal(trig, coeffs, t, k - 1)
      + coeffs[2 * k] * trig.cos(Freq(k, t))
      + coeffs[2 * k + 1] * trig.sin(Freq(k, t))
  }

  /** The harmonic model `b0 + b1 t + sum_j (b_2j cos(2 pi j t) + b_2j+1 sin(2 pi j t))`. */
  function HarmonicValue(trig: Trig, coeffs: seq<real>, t: real, order: nat): real
    requires |coeffs| == NumCoeffs(order)
  {
    coeffs[0] + coeffs[1] * t + Seasonal(trig, coeffs, t, order)
  }

  lemma DotNTwoSteps(a: seq<real>, b: seq<real>, n: nat, x: real, y: real)
    requires n + 2 <= |a| && n + 2 <= |b| && a[n] == x && a[n + 1] == y
    ensures DotN(a, b, n + 2) == DotN(a, b, n) + b[n] * x + b[n + 1] * y
  {
    DotNStep(a, b, n);
    DotNStep(a, b, n + 1);
  }

  lemma {:induction false} DotDesignRowPrefix(trig: Trig, coeffs: seq<real>, t: real, row: seq<real>, k: nat)
    requires |row| == |coeffs| && 2 * k + 2 <= |row|
    requires forall c :: 0 <= c < |row| ==> row[c] == Basis(trig, t, c)
    ensures DotN(row, coeffs, 2 * k + 2) == coeffs[0] + coeffs[1] * t + Seasonal(trig, coeffs, t, k)
  {
    if k == 0 {
      DotNTwoSteps(row, coeffs, 0, 1.0, t);
    } else {
      DotDesignRowPrefix(trig, coeffs, t, row, k - 1);
      BasisHarmonicColumns(trig, t, k);
      DotNTwoSteps(row, coeffs, 2 * k, trig.cos(Freq(k, t)), trig.sin(Freq(k, t)));
    }
  }

  /** Each prediction is the harmonic series evaluated at its date. */
  lemma PredictIsHarmonicSeries(trig: Trig, model: HarmonicModel, dates: seq<real>, order: nat, i: nat)
    requires |model.coefficients| == NumCoeffs(order) && i < |dates|
    ensures PredictHarmonicModel(trig, model, dates, order)[i]
         == HarmonicValue(trig, model.coefficients, dates[i], order)
  {
    DotDesignRowPrefix(trig, model.coefficients, dates[i], DesignRow(trig, dates[i], order), order);
  }
}
