/** The BFAST Monitor workflow (src/workflows.rs, lines 148-295): integer
    `YYYYMMDD` dates to fractional years, the per-pixel pipeline (split into
    history and monitoring periods, fit, predict, detect) and the raster
    driver that validates the stack and fills a `(2, H, W)` output. */
module BfastMonitor {
  import opened Common
  import opened Harmonic
  import opened Mosum

  // ---------------------------------------------------------------------
  // Dates

  /** Rust's `/` on `i64`: rounds toward zero. */
  function TruncDiv(a: int, b: int): int
    requires b > 0
  {
    if a >= 0 then a / b else -((-a) / b)
  }

  /** Rust's `%` on `i64`: the remainder takes the sign of `a`. */
  function TruncRem(a: int, b: int): int
    requires b > 0
  {
    if a >= 0 then a % b else -((-a) % b)
  }

  /** Truncating division and remainder recompose the dividend, and the
      remainder is smaller than the divisor and has the dividend's sign. */
  lemma TruncDivRem(a: int, b: int)
    requires b > 0
    ensures b * TruncDiv(a, b) + TruncRem(a, b) == a
    ensures -b < TruncRem(a, b) < b
    ensures a >= 0 ==> TruncRem(a, b) >= 0
    ensures a < 0 ==> TruncRem(a, b) <= 0
  {
  }

  datatype DateParts = DateParts(year: int, month: int, day: int)

  /** `year = d / 10000`, `month = (d % 10000) / 100`, `day = d % 100`. */
  function SplitDate(d: int): (p: DateParts)
    ensures d >= 0 ==> p.year >= 0 && 0 <= p.month < 100 && 0 <= p.day < 100
    ensures d < 0 ==> p.year <= 0 && -100 < p.month <= 0 && -100 < p.day <= 0
  {
    DateParts(TruncDiv(d, 10000), TruncDiv(TruncRem(d, 10000), 100), TruncRem(d, 100))
  }

  /** Quotient and remainder by 100 are determined by any decomposition
      with a remainder in `[0, 100)`. */
  lemma DivMod100Unique(a: int, q: int, r: int)
    requires 0 <= r < 100 && a == 100 * q + r
    ensures a / 100 == q && a % 100 == r
  {
  }

  /** For a non-negative date, the day is also the last two digits of the
      month-and-day field, and the fields recompose the date. */
  lemma SplitNonNegative(a: nat)
    ensures (a % 10000) % 100 == a % 100
    ensures (a / 10000) * 10000 + ((a % 10000) / 100) * 100 + a % 100 == a
  {
    var q, r := a / 10000, a % 10000;
    assert a == 10000 * q + r;
    assert r == 100 * (r / 100) + r % 100;
    DivMod100Unique(a, 100 * q + r / 100, r % 100);
  }

  /** The three fields recompose the date, for every `i64` value including
      negative ones. */
  lemma SplitDateRecomposes(d: int)
    ensures var p := SplitDate(d); p.year * 10000 + p.month * 100 + p.day == d
  {
    if d >= 0 {
      SplitNonNegative(d);
    } else {
      SplitNonNegative(-d);
    }
  }

  /** A well-formed calendar date in `YYYYMMDD` form. */
  predicate ValidDate(year: nat, month: int, day: int) {
    1 <= month <= 12 && 1 <= day <= 31
  }

  /** A well-formed date splits back into its fields. */
  lemma SplitValidDate(year: nat, month: int, day: int)
    requires ValidDate(year, month, day)
    ensures SplitDate(year * 10000 + month * 100 + day) == DateParts(year, month, day)
  {
    var d := year * 10000 + month * 100 + day;
    assert d / 10000 == year && d % 10000 == month * 100 + day;
    assert (month * 100 + day) / 100 == month;
    assert d % 100 == day;
  }

  /** The fractional year of one integer date. */
  function FracYear(d: int): (f: real)
    ensures var p := SplitDate(d);
      1 <= p.month <= 12 && 1 <= p.day <= 31 ==> p.year as real <= f < p.year as real + 1.0
  {
    var p := SplitDate(d);
    p.year as real + (p.month - 1) as real / 12.0 + (p.day - 1) as real / 365.25
  }

  /** On well-formed dates the fractional year preserves the order of the
      integer dates, so filtering on either gives the same periods. */
  lemma FracYearStrictlyIncreasing(y1: nat, m1: int, d1: int, y2: nat, m2: int, d2: int)
    requires ValidDate(y1, m1, d1) && ValidDate(y2, m2, d2)
    requires y1 * 10000 + m1 * 100 + d1 < y2 * 10000 + m2 * 100 + d2
    ensures FracYear(y1 * 10000 + m1 * 100 + d1) < FracYear(y2 * 10000 + m2 * 100 + d2)
  {
    SplitValidDate(y1, m1, d1);
    SplitValidDate(y2, m2, d2);
    if y1 == y2 && m1 == m2 {
      assert d1 < d2;
    } else if y1 == y2 {
      assert m1 < m2;
    } else {
      assert y1 < y2;
    }
  }

  /** `dates_to_frac_years`. */
  function DatesToFracYears(dates: seq<int>): (r: seq<real>)
    ensures |r| == |dates| && forall i :: 0 <= i < |dates| ==> r[i] == FracYear(dates[i])
  {
    seq(|dates|, i requires 0 <= i < |dates| => FracYear(dates[i]))
  }

  // ---------------------------------------------------------------------
  // Per pixel

  /** The ascending indices `i` of `dates` with `p(dates[i])`: the
      `enumerate().filter().map()` chain. */
  function IndicesWhere(dates: seq<real>, p: real -> bool): (idx: seq<nat>)
    ensures forall j :: 0 <= j < |idx| ==> idx[j] < |dates| && p(dates[idx[j]])
    ensures forall i :: 0 <= i < |dates| && p(dates[i]) ==> i in idx
    ensures forall j1, j2 :: 0 <= j1 < j2 < |idx| ==> idx[j1] < idx[j2]
  {
    if |dates| == 0 then []
    else
      var front := IndicesWhere(dates[..|dates| - 1], p);
      if p(dates[|dates| - 1]) then front + [|dates| - 1] else front
  }

  /** Whether a date lies in the history period `[historyStart, monitorStart)`. */
  function InHistory(historyStart: real, monitorStart: real): real -> bool {
    d => historyStart <= d < monitorStart
  }

  /** Whether a date lies in the monitoring period `[monitorStart, inf)`. */
  function InMonitor(monitorStart: real): real -> bool {
    d => d >= monitorStart
  }

  /** An index is selected exactly when its date satisfies the predicate. */
  lemma IndicesWhereMembership(dates: seq<real>, p: real -> bool, i: nat)
    requires i < |dates|
    ensures i in IndicesWhere(dates, p) <==> p(dates[i])
  {
    var idx := IndicesWhere(dates, p);
    if i in idx {
      var j :| 0 <= j < |idx| && idx[j] == i;
    }
  }

  /** The two periods are disjoint, and together they hold exactly the
      dates from `historyStart` or `monitorStart` on. */
  lemma PeriodsPartition(dates: seq<real>, historyStart: real, monitorStart: real, i: nat)
    requires i < |dates|
    ensures !(i in IndicesWhere(dates, InHistory(historyStart, monitorStart)) &&
              i in IndicesWhere(dates, InMonitor(monitorStart)))
    ensures dates[i] >= historyStart || dates[i] >= monitorStart <==>
      i in IndicesWhere(dates, InHistory(historyStart, monitorStart)) ||
      i in IndicesWhere(dates, InMonitor(monitorStart))
  {
    IndicesWhereMembership(dates, InHistory(historyStart, monitorStart), i);
    IndicesWhereMembership(dates, InMonitor(monitorStart), i);
  }

  /** The values at the given indices. */
  function Gather(xs: seq<real>, idx: seq<nat>): (r: seq<real>)
    requires forall j :: 0 <= j < |idx| ==> idx[j] < |xs|
    ensures |r| == |idx|
  {
    seq(|idx|, j requires 0 <= j < |idx| => xs[idx[j]])
  }

  /** `run_bfast_monitor_per_pixel`: the break date and magnitude of one
      pixel's series, or `(0, 0)` when a period is empty or the fit fails. */
  function RunBfastMonitorPerPixel(trig: Trig, solve: Solver, pixelTs: seq<real>, dates: seq<real>,
                                   historyStart: real, monitorStart: real, order: nat, h: real, alpha: real)
    : (r: (real, real))
    requires |pixelTs| == |dates|
    ensures r.1 >= 0.0
    ensures |IndicesWhere(dates, InHistory(historyStart, monitorStart))| == 0 ==> r == (0.0, 0.0)
    ensures |IndicesWhere(dates, InMonitor(monitorStart))| == 0 ==> r == (0.0, 0.0)
    ensures |IndicesWhere(dates, InHistory(historyStart, monitorStart))| <= NumCoeffs(order) ==> r == (0.0, 0.0)
  {
    var historyIndices := IndicesWhere(dates, InHistory(historyStart, monitorStart));
    var monitorIndices := IndicesWhere(dates, InMonitor(monitorStart));
    if |historyIndices| == 0 || |monitorIndices| == 0 then
      (0.0, 0.0)
    else
      var historyTs := Gather(pixelTs, historyIndices);
      var historyDates := Gather(dates, historyIndices);
      var monitorTs := Gather(pixelTs, monitorIndices);
      var monitorDates := Gather(dates, monitorIndices);
      match FitHarmonicModel(trig, solve, historyTs, historyDates, order)
      case Err(_) => (0.0, 0.0)
      case Ok(model) =>
        var predicted := PredictHarmonicModel(trig, model, monitorDates, order);
        MosumBreak(monitorTs, predicted, monitorDates, |historyTs|, model.sigmaSq, h, alpha)
  }

  /** A fit failure never escapes the pixel: it becomes the sentinel. */
  lemma FitFailureGivesSentinel(trig: Trig, solve: Solver, pixelTs: seq<real>, dates: seq<real>,
                                historyStart: real, monitorStart: real, order: nat, h: real, alpha: real)
    requires |pixelTs| == |dates|
    requires var hist := IndicesWhere(dates, InHistory(historyStart, monitorStart));
      FitHarmonicModel(trig, solve, Gather(pixelTs, hist), Gather(dates, hist), order).Err?
    ensures RunBfastMonitorPerPixel(trig, solve, pixelTs, dates, historyStart, monitorStart, order, h, alpha)
         == (0.0, 0.0)
  {
  }

  /** A reported break is dated inside the monitoring period. */
  lemma BreakDateInMonitoringPeriod(trig: Trig, solve: Solver, pixelTs: seq<real>, dates: seq<real>,
                                    historyStart: real, monitorStart: real, order: nat, h: real, alpha: real)
    requires |pixelTs| == |dates|
    requires RunBfastMonitorPerPixel(trig, solve, pixelTs, dates, historyStart, monitorStart, order, h, alpha)
          != (0.0, 0.0)
    ensures RunBfastMonitorPerPixel(trig, solve, pixelTs, dates, historyStart, monitorStart, order, h, alpha).0
          >= monitorStart
  {
    var monitorIndices := IndicesWhere(dates, InMonitor(monitorStart));
    var historyIndices := IndicesWhere(dates, InHistory(historyStart, monitorStart));
    var monitorDates := Gather(dates, monitorIndices);
    var fit := FitHarmonicModel(trig, solve, Gather(pixelTs, historyIndices), Gather(dates, historyIndices), order);
    var model := fit.value;
    var monitorTs := Gather(pixelTs, monitorIndices);
    var predicted := PredictHarmonicModel(trig, model, monitorDates, order);
    var b := BreakIndex(monitorTs, predicted, |historyIndices|, model.sigmaSq, h, alpha).value;
    assert monitorDates[b] == dates[monitorIndices[b]];
  }

  // ---------------------------------------------------------------------
  // Raster driver

  lemma ProductOfThree(t: nat, hgt: nat, wdt: nat)
    ensures Product([t, hgt, wdt]) == t * hgt * wdt
  {
    assert [t, hgt, wdt][..2] == [t, hgt];
    assert [t, hgt][..1] == [t];
    assert [t][..0] == [];
    calc {
      Product([t, hgt, wdt]);
      Product([t, hgt]) * wdt;
      (Product([t]) * hgt) * wdt;
      (Product([]) * t * hgt) * wdt;
    }
  }

  /** The flat position of `stack[t, y, x]` in a row-major `(T, H, W)` array. */
  function FlatIndex(hgt: nat, wdt: nat, t: nat, y: nat, x: nat): nat {
    (t * hgt + y) * wdt + x
  }

  lemma {:induction false} MulLeft(a: nat, b: nat, c: nat)
    requires a <= b
    ensures a * c <= b * c
  {
    if c > 0 {
      MulLeft(a, b, c - 1);
      assert a * c == a * (c - 1) + a && b * c == b * (c - 1) + b;
    }
  }

  lemma FlatIndexInBounds(tl: nat, hgt: nat, wdt: nat, t: nat, y: nat, x: nat)
    requires t < tl && y < hgt && x < wdt
    ensures FlatIndex(hgt, wdt, t, y, x) < tl * hgt * wdt
  {
    var row := t * hgt + y;
    assert (t + 1) * hgt == t * hgt + hgt;
    MulLeft(t + 1, tl, hgt);
    assert row + 1 <= tl * hgt;
    assert (row + 1) * wdt == row * wdt + wdt;
    MulLeft(row + 1, tl * hgt, wdt);
  }

  lemma FlatIndicesInBounds(tl: nat, hgt: nat, wdt: nat, y: nat, x: nat)
    requires y < hgt && x < wdt
    ensures forall t :: 0 <= t < tl ==> FlatIndex(hgt, wdt, t, y, x) < tl * hgt * wdt
  {
    forall t | 0 <= t < tl
      ensures FlatIndex(hgt, wdt, t, y, x) < tl * hgt * wdt
    {
      FlatIndexInBounds(tl, hgt, wdt, t, y, x);
    }
  }

  /** A valid three-dimensional array holds `T * H * W` elements. */
  lemma StackSize(stack: NdArray<real>)
    requires stack.Valid() && stack.Ndim() == 3
    ensures |stack.data| == stack.shape[0] * stack.shape[1] * stack.shape[2]
  {
    assert stack.shape == [stack.shape[0], stack.shape[1], stack.shape[2]];
    ProductOfThree(stack.shape[0], stack.shape[1], stack.shape[2]);
  }

  /** The time series of pixel `(y, x)` of a valid `(T, H, W)` stack. */
  function PixelSeries(stack: NdArray<real>, y: nat, x: nat): (s: seq<real>)
    requires stack.Valid() && stack.Ndim() == 3 && y < stack.shape[1] && x < stack.shape[2]
    ensures |s| == stack.shape[0]
    ensures forall t :: 0 <= t < |s| ==>
      FlatIndex(stack.shape[1], stack.shape[2], t, y, x) < |stack.data| &&
      s[t] == stack.data[FlatIndex(stack.shape[1], stack.shape[2], t, y, x)]
  {
    StackSize(stack);
    FlatIndicesInBounds(stack.shape[0], stack.shape[1], stack.shape[2], y, x);
    seq(stack.shape[0], t requires 0 <= t < stack.shape[0] =>
      StackSize(stack);
      FlatIndexInBounds(stack.shape[0], stack.shape[1], stack.shape[2], t, y, x);
      stack.data[FlatIndex(stack.shape[1], stack.shape[2], t, y, x)])
  }

  /** The two outputs of pixel `(y, x)`: the per-pixel pipeline on that
      pixel's series and the shared dates and window boundaries. */
  function PixelOutput(trig: Trig, solve: Solver, stack: NdArray<real>, fracDates: seq<real>,
                       historyStart: real, monitorStart: real, order: nat, h: real, alpha: real,
                       y: nat, x: nat): (r: (real, real))
    requires stack.Valid() && stack.Ndim() == 3 && stack.shape[0] == |fracDates|
    requires y < stack.shape[1] && x < stack.shape[2]
    ensures r.1 >= 0.0
  {
    RunBfastMonitorPerPixel(trig, solve, PixelSeries(stack, y, x), fracDates,
      historyStart, monitorStart, order, h, alpha)
  }

  /** `bfast_monitor`: rejects a stack that is not 3-dimensional or whose
      time axis does not match the dates, and otherwise writes every pixel's
      break date into channel 0 and its magnitude into channel 1. */
  method RunBfastMonitor(trig: Trig, solve: Solver, stack: NdArray<real>, dates: seq<int>,
                         historyStartDate: int, monitorStartDate: int, order: nat, h: real, alpha: real)
    returns (r: Result<array3<real>>)
    requires stack.Valid()
    ensures r.Err? <==> stack.Ndim() != 3 || stack.shape[0] != |dates|
    ensures r.Err? ==> r.error == InvalidArgument
    ensures r.Ok? ==>
      var out := r.value;
      out.Length0 == 2 && out.Length1 == stack.shape[1] && out.Length2 == stack.shape[2] &&
      forall y, x :: 0 <= y < out.Length1 && 0 <= x < out.Length2 ==>
        (out[0, y, x], out[1, y, x])
        == PixelOutput(trig, solve, stack, DatesToFracYears(dates), FracYear(historyStartDate),
                       FracYear(monitorStartDate), order, h, alpha, y, x)
  {
    if stack.Ndim() != 3 {
      return Err(InvalidArgument);
    }
    var timeLen, height, width := stack.shape[0], stack.shape[1], stack.shape[2];
    if timeLen != |dates| {
      return Err(InvalidArgument);
    }
    var fracDates := DatesToFracYears(dates);
    var historyStart := FracYear(historyStartDate);
    var monitorStart := FracYear(monitorStartDate);
    var out := FillChannels(height, width, (y: nat, x: nat) requires y < height && x < width =>
      PixelOutput(trig, solve, stack, fracDates, historyStart, monitorStart, order, h, alpha, y, x));
    return Ok(out);
  }

  /** The zero-initialised `(2, H, W)` output and the per-pixel loop that
      writes `pixel(y, x)` into the two channels at `(y, x)`. */
  method FillChannels(height: nat, width: nat, pixel: (nat, nat) --> (real, real)) returns (out: array3<real>)
    requires forall y: nat, x: nat :: y < height && x < width ==> pixel.requires(y, x)
    ensures out.Length0 == 2 && out.Length1 == height && out.Length2 == width
    ensures forall y: nat, x: nat :: y < height && x < width ==>
      out[0, y, x] == pixel(y, x).0 && out[1, y, x] == pixel(y, x).1
  {
    out := new real[2, height, width]((c, y, x) => 0.0);
    for y := 0 to height
      invariant forall y': nat, x': nat :: y' < y && x' < width ==>
        out[0, y', x'] == pixel(y', x').0 && out[1, y', x'] == pixel(y', x').1
    {
      for x := 0 to width
        invariant forall y': nat, x': nat :: y' < y && x' < width ==>
          out[0, y', x'] == pixel(y', x').0 && out[1, y', x'] == pixel(y', x').1
        invariant forall x': nat :: x' < x ==>
          out[0, y, x'] == pixel(y, x').0 && out[1, y, x'] == pixel(y, x').1
      {
        var result := pixel(y, x);
        out[0, y, x] := result.0;
        out[1, y, x] := result.1;
      }
    }
  }
}
