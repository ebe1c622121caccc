/** The spectral-index kernels (src/indices.rs): the guarded normalized
    difference `(a - b) / (a + b)` over two labeled arrays, its NDVI and
    NDWI instances, and the enhanced vegetation index. */
module Indices {
  import opened Common

  /** A dense array with one name per axis. */
  datatype LabeledArray = LabeledArray(data: NdArray<real>, dims: seq<string>)

  /** Why a kernel refused its inputs. */
  datatype Mismatch = ShapeMismatch | DimsMismatch

  datatype Outcome = Done(result: LabeledArray) | Rejected(reason: Mismatch)

  /** The EVI coefficients: gain, canopy background, and the red and blue
      aerosol terms. */
  const EviGain: real := 2.5
  const EviL: real := 1.0
  const EviC1: real := 6.0
  const EviC2: real := 7.5

  /** One element of the normalized difference: zero when the sum is
      within `Epsilon` of zero, the ratio otherwise. */
  function NdElement(a: real, b: real): real {
    if Abs(a + b) < Epsilon then 0.0 else (a - b) / (a + b)
  }

  /** The normalized difference of two equally long element sequences. */
  function NdElements(xs: seq<real>, ys: seq<real>): (r: seq<real>)
    requires |xs| == |ys|
    ensures |r| == |xs|
  {
    seq(|xs|, i requires 0 <= i < |xs| => NdElement(xs[i], ys[i]))
  }

  /** `_normalized_difference`: the shape test first, then the label test,
      then an element-wise result with `a`'s shape and labels. */
  function NormalizedDifference(a: LabeledArray, b: LabeledArray): (r: Outcome)
    requires a.data.Valid() && b.data.Valid()
    ensures r.Rejected? <==> a.data.shape != b.data.shape || a.dims != b.dims
    ensures r == Rejected(ShapeMismatch) <==> a.data.shape != b.data.shape
  {
    if a.data.shape != b.data.shape then Rejected(ShapeMismatch)
    else if a.dims != b.dims then Rejected(DimsMismatch)
    else Done(LabeledArray(NdArray(a.data.shape, NdElements(a.data.data, b.data.data)), a.dims))
  }

  /** Arrays of the same shape hold the same number of elements. */
  lemma SameShapeSameLength<T, U>(a: NdArray<T>, b: NdArray<U>)
    requires a.Valid() && b.Valid()
    ensures a.shape == b.shape ==> |a.data| == |b.data|
  {
  }

  /** The kernel as written: a zeroed buffer of `a`'s shape, filled element
      by element from the two inputs. */
  method ComputeNormalizedDifference(a: LabeledArray, b: LabeledArray) returns (r: Outcome)
    requires a.data.Valid() && b.data.Valid()
    ensures r == NormalizedDifference(a, b)
  {
    if a.data.shape != b.data.shape {
      return Rejected(ShapeMismatch);
    }
    if a.dims != b.dims {
      return Rejected(DimsMismatch);
    }
    SameShapeSameLength(a.data, b.data);
    var xs, ys := a.data.data, b.data.data;
    var buffer := new real[|xs|](_ => 0.0);
    for i := 0 to |xs|
      invariant forall j :: 0 <= j < i ==> buffer[j] == NdElement(xs[j], ys[j])
    {
      var sum := xs[i] + ys[i];
      buffer[i] := if Abs(sum) < Epsilon then 0.0 else (xs[i] - ys[i]) / sum;
    }
    assert buffer[..] == NdElements(xs, ys);
    return Done(LabeledArray(NdArray(a.data.shape, buffer[..]), a.dims));
  }

  /** The outcome is decided by the shape test before the label test, and
      succeeds exactly when both agree; a result keeps `a`'s shape and
      labels and holds one element per input element. */
  lemma NormalizedDifferenceOutcome(a: LabeledArray, b: LabeledArray)
    requires a.data.Valid() && b.data.Valid()
    ensures NormalizedDifference(a, b) == Rejected(ShapeMismatch) <==> a.data.shape != b.data.shape
    ensures NormalizedDifference(a, b) == Rejected(DimsMismatch) <==>
      a.data.shape == b.data.shape && a.dims != b.dims
    ensures NormalizedDifference(a, b).Done? ==>
      var out := NormalizedDifference(a, b).result;
      out.dims == a.dims && out.data.shape == a.data.shape && out.data.Valid() &&
      forall i :: 0 <= i < |out.data.data| ==>
        out.data.data[i] == NdElement(a.data.data[i], b.data.data[i])
  {
    if NormalizedDifference(a, b).Done? {
      SameShapeSameLength(a.data, b.data);
    }
  }

  /** Away from the guard the element is the ratio: multiplied back by the
      sum it gives the difference. */
  lemma NdElementTimesSum(a: real, b: real)
    requires Abs(a + b) >= Epsilon
    ensures NdElement(a, b) * (a + b) == a - b
  {
  }

  /** Two non-negative reflectances give an element in [-1, 1]. */
  lemma NdElementBounded(a: real, b: real)
    requires a >= 0.0 && b >= 0.0
    ensures -1.0 <= NdElement(a, b) <= 1.0
  {
    if Abs(a + b) >= Epsilon {
      var r := NdElement(a, b);
      var s := a + b;
      assert s > 0.0;
      NdElementTimesSum(a, b);
      assert r * s == a - b;
    }
  }

  /** Swapping the operands negates the element. */
  lemma NdElementSwap(a: real, b: real)
    ensures NdElement(b, a) == -NdElement(a, b)
  {
    assert b + a == a + b;
    if Abs(a + b) >= Epsilon {
      var q := (a - b) / (a + b);
      assert q * (a + b) == a - b;
      assert (-q) * (a + b) == b - a;
    }
  }

  /** Every element of a normalized difference of non-negative arrays lies
      in [-1, 1]. */
  lemma NormalizedDifferenceBounded(a: LabeledArray, b: LabeledArray)
    requires a.data.Valid() && b.data.Valid()
    requires forall i :: 0 <= i < |a.data.data| ==> a.data.data[i] >= 0.0
    requires forall i :: 0 <= i < |b.data.data| ==> b.data.data[i] >= 0.0
    ensures NormalizedDifference(a, b).Done? ==>
      forall i :: 0 <= i < |NormalizedDifference(a, b).result.data.data| ==>
        -1.0 <= NormalizedDifference(a, b).result.data.data[i] <= 1.0
  {
    if NormalizedDifference(a, b).Done? {
      SameShapeSameLength(a.data, b.data);
      var out := NdElements(a.data.data, b.data.data);
      forall i | 0 <= i < |out|
        ensures -1.0 <= out[i] <= 1.0
      {
        NdElementBounded(a.data.data[i], b.data.data[i]);
      }
    }
  }

  /** An array against itself gives zero everywhere, zero sums included. */
  lemma NormalizedDifferenceOfItself(a: LabeledArray)
    requires a.data.Valid()
    ensures NormalizedDifference(a, a).Done?
    ensures forall i :: 0 <= i < |a.data.data| ==> NormalizedDifference(a, a).result.data.data[i] == 0.0
  {
    var out := NdElements(a.data.data, a.data.data);
    forall i | 0 <= i < |out|
      ensures out[i] == 0.0
    {
      assert a.data.data[i] - a.data.data[i] == 0.0;
    }
  }

  /** Swapping the arrays negates every element of the result. */
  lemma NormalizedDifferenceSwap(a: LabeledArray, b: LabeledArray)
    requires a.data.Valid() && b.data.Valid()
    requires a.data.shape == b.data.shape && a.dims == b.dims
    ensures NormalizedDifference(a, b).Done? && NormalizedDifference(b, a).Done?
    ensures forall i :: 0 <= i < |a.data.data| ==>
      NormalizedDifference(b, a).result.data.data[i] == -NormalizedDifference(a, b).result.data.data[i]
  {
    SameShapeSameLength(a.data, b.data);
    var ab, ba := NdElements(a.data.data, b.data.data), NdElements(b.data.data, a.data.data);
    forall i | 0 <= i < |a.data.data|
      ensures ba[i] == -ab[i]
    {
      NdElementSwap(a.data.data[i], b.data.data[i]);
    }
  }

  /** The elements of the worked example: `[[1, 2], [3, 4]]` against
      `[[2, 1], [1, 2]]`, in row-major order. */
  lemma TwoByTwoElements(xs: seq<real>, ys: seq<real>)
    requires xs == [1.0, 2.0, 3.0, 4.0] && ys == [2.0, 1.0, 1.0, 2.0]
    ensures NdElements(xs, ys) == [-1.0 / 3.0, 1.0 / 3.0, 0.5, 1.0 / 3.0]
  {
    var out := NdElements(xs, ys);
    assert out[0] == NdElement(1.0, 2.0) == -1.0 / 3.0;
    assert out[1] == NdElement(2.0, 1.0) == 1.0 / 3.0;
    assert out[2] == NdElement(3.0, 1.0) == 0.5;
    assert out[3] == NdElement(4.0, 2.0) == 1.0 / 3.0;
  }

  /** The worked example on `y`/`x`-labeled 2x2 arrays keeps the labels and
      gives `[[-1/3, 1/3], [1/2, 1/3]]`. */
  lemma TwoByTwoExample(a: LabeledArray, b: LabeledArray)
    requires a.dims == ["y", "x"] && b.dims == ["y", "x"]
    requires a.data.shape == [2, 2] && b.data.shape == [2, 2]
    requires a.data.data == [1.0, 2.0, 3.0, 4.0] && b.data.data == [2.0, 1.0, 1.0, 2.0]
    ensures a.data.Valid() && b.data.Valid()
    ensures NormalizedDifference(a, b) ==
      Done(LabeledArray(NdArray([2, 2], [-1.0 / 3.0, 1.0 / 3.0, 0.5, 1.0 / 3.0]), ["y", "x"]))
  {
    assert Product([2, 2]) == Product([2]) * 2;
    assert [2, 2][..1] == [2];
    TwoByTwoElements(a.data.data, b.data.data);
  }

  /** The `normalized_difference` entry point: both raw arrays get the same
      labels, so only the shape test can fail. */
  function NormalizedDifferenceOf(a: NdArray<real>, b: NdArray<real>, dims: seq<string>): (r: Outcome)
    requires a.Valid() && b.Valid()
    ensures r.Rejected? <==> a.shape != b.shape
    ensures r != Rejected(DimsMismatch)
    ensures r.Done? ==> r.result.dims == dims && r.result.data.shape == a.shape
  {
    NormalizedDifference(LabeledArray(a, dims), LabeledArray(b, dims))
  }

  /** `ndvi`: near-infrared first, red second. */
  function Ndvi(nir: NdArray<real>, red: NdArray<real>, dims: seq<string>): (r: Outcome)
    requires nir.Valid() && red.Valid()
    ensures r.Rejected? <==> nir.shape != red.shape
    ensures r.Done? ==>
      |nir.data| == |red.data| && |r.result.data.data| == |nir.data| &&
      forall i :: 0 <= i < |nir.data| ==> r.result.data.data[i] == NdElement(nir.data[i], red.data[i])
  {
    SameShapeSameLength(nir, red);
    NormalizedDifferenceOf(nir, red, dims)
  }

  /** `ndwi`: green first, near-infrared second. */
  function Ndwi(green: NdArray<real>, nir: NdArray<real>, dims: seq<string>): (r: Outcome)
    requires green.Valid() && nir.Valid()
    ensures r.Rejected? <==> green.shape != nir.shape
    ensures r.Done? ==>
      |green.data| == |nir.data| && |r.result.data.data| == |green.data| &&
      forall i :: 0 <= i < |green.data| ==> r.result.data.data[i] == NdElement(green.data[i], nir.data[i])
  {
    SameShapeSameLength(green, nir);
    NormalizedDifferenceOf(green, nir, dims)
  }

  /** The operand order of the two indices: NDWI over a visible band is the
      negation of NDVI over the same band. */
  lemma NdwiNegatesNdvi(nir: NdArray<real>, visible: NdArray<real>, dims: seq<string>)
    requires nir.Valid() && visible.Valid() && nir.shape == visible.shape
    ensures Ndvi(nir, visible, dims).Done? && Ndwi(visible, nir, dims).Done?
    ensures forall i :: 0 <= i < |nir.data| ==>
      Ndwi(visible, nir, dims).result.data.data[i] == -Ndvi(nir, visible, dims).result.data.data[i]
  {
    NormalizedDifferenceSwap(LabeledArray(nir, dims), LabeledArray(visible, dims));
  }

  /** NDVI is non-negative where near-infrared exceeds a non-negative red
      (zero only where the guard applies to a sum below `Epsilon`). */
  lemma NdviNonNegativeOverVegetation(nir: NdArray<real>, red: NdArray<real>, dims: seq<string>)
    requires nir.Valid() && red.Valid() && nir.shape == red.shape
    requires forall i :: 0 <= i < |nir.data| ==> 0.0 <= red.data[i] < nir.data[i]
    ensures Ndvi(nir, red, dims).Done?
    ensures forall i :: 0 <= i < |nir.data| ==> Ndvi(nir, red, dims).result.data.data[i] >= 0.0
  {
    SameShapeSameLength(nir, red);
    var out := NdElements(nir.data, red.data);
    forall i | 0 <= i < |nir.data|
      ensures out[i] >= 0.0
    {
      var n, r := nir.data[i], red.data[i];
      if Abs(n + r) >= Epsilon {
        assert n - r > 0.0 && n + r > 0.0;
      }
    }
  }

  /** One EVI element: zero when the denominator is within `Epsilon` of
      zero, the gained ratio otherwise. */
  function EviElement(nir: real, red: real, blue: real): real {
    var denominator := nir + EviC1 * red - EviC2 * blue + EviL;
    if Abs(denominator) < Epsilon then 0.0 else EviGain * (nir - red) / denominator
  }

  function EviElements(nir: seq<real>, red: seq<real>, blue: seq<real>): (r: seq<real>)
    requires |nir| == |red| == |blue|
    ensures |r| == |nir|
  {
    seq(|nir|, i requires 0 <= i < |nir| => EviElement(nir[i], red[i], blue[i]))
  }

  /** `enhanced_vegetation_index`: all three bands must share one shape;
      the labels are the ones given. */
  function Evi(nir: NdArray<real>, red: NdArray<real>, blue: NdArray<real>, dims: seq<string>): (r: Outcome)
    requires nir.Valid() && red.Valid() && blue.Valid()
    ensures r.Rejected? <==> nir.shape != red.shape || red.shape != blue.shape
    ensures r.Rejected? ==> r.reason == ShapeMismatch
    ensures r.Done? ==> r.result.dims == dims && r.result.data.shape == nir.shape
  {
    if !(nir.shape == red.shape && red.shape == blue.shape) then Rejected(ShapeMismatch)
    else
      SameShapeSameLength(nir, red);
      SameShapeSameLength(red, blue);
      Done(LabeledArray(NdArray(nir.shape, EviElements(nir.data, red.data, blue.data)), dims))
  }

  /** The EVI kernel as written: a zeroed buffer filled element by
      element. */
  method ComputeEvi(nir: NdArray<real>, red: NdArray<real>, blue: NdArray<real>, dims: seq<string>)
    returns (r: Outcome)
    requires nir.Valid() && red.Valid() && blue.Valid()
    ensures r == Evi(nir, red, blue, dims)
  {
    if !(nir.shape == red.shape && red.shape == blue.shape) {
      return Rejected(ShapeMismatch);
    }
    SameShapeSameLength(nir, red);
    SameShapeSameLength(red, blue);
    var buffer := new real[|nir.data|](_ => 0.0);
    for i := 0 to |nir.data|
      invariant forall j :: 0 <= j < i ==> buffer[j] == EviElement(nir.data[j], red.data[j], blue.data[j])
    {
      var denominator := nir.data[i] + EviC1 * red.data[i] - EviC2 * blue.data[i] + EviL;
      var numerator := nir.data[i] - red.data[i];
      buffer[i] := if Abs(denominator) < Epsilon then 0.0 else EviGain * numerator / denominator;
    }
    assert buffer[..] == EviElements(nir.data, red.data, blue.data);
    return Done(LabeledArray(NdArray(nir.shape, buffer[..]), dims));
  }

  /** EVI fails exactly on differing shapes; a result has the near-infrared
      shape, the given labels, and one element per pixel. */
  lemma EviOutcome(nir: NdArray<real>, red: NdArray<real>, blue: NdArray<real>, dims: seq<string>)
    requires nir.Valid() && red.Valid() && blue.Valid()
    ensures Evi(nir, red, blue, dims).Rejected? <==> nir.shape != red.shape || red.shape != blue.shape
    ensures Evi(nir, red, blue, dims).Done? ==>
      var out := Evi(nir, red, blue, dims).result;
      out.dims == dims && out.data.shape == nir.shape && out.data.Valid() &&
      forall i :: 0 <= i < |out.data.data| ==>
        out.data.data[i] == EviElement(nir.data[i], red.data[i], blue.data[i])
  {
    if Evi(nir, red, blue, dims).Done? {
      SameShapeSameLength(nir, red);
      SameShapeSameLength(red, blue);
    }
  }

  /** Away from the guard the element is the gained ratio: multiplied back
      by the denominator it gives the gained difference. */
  lemma EviElementTimesDenominator(nir: real, red: real, blue: real)
    requires Abs(nir + EviC1 * red - EviC2 * blue + EviL) >= Epsilon
    ensures EviElement(nir, red, blue) * (nir + EviC1 * red - EviC2 * blue + EviL) == EviGain * (nir - red)
  {
  }

  /** Where the denominator is positive the index has the sign of
      near-infrared minus red. */
  lemma EviSign(nir: real, red: real, blue: real)
    requires nir + EviC1 * red - EviC2 * blue + EviL >= Epsilon
    ensures EviElement(nir, red, blue) > 0.0 <==> nir > red
    ensures EviElement(nir, red, blue) == 0.0 <==> nir == red
  {
    var d := nir + EviC1 * red - EviC2 * blue + EviL;
    var e := EviElement(nir, red, blue);
    EviElementTimesDenominator(nir, red, blue);
    if e > 0.0 {
      assert e * d > 0.0;
    } else if e < 0.0 {
      assert -e * d > 0.0;
    }
  }

  /** The worked example: near-infrared 0.4, red 0.1 and blue 0.05 give
      6/13, the value 0.46153846153846156 rounds to. */
  lemma EviExample()
    ensures EviElement(0.4, 0.1, 0.05) == 6.0 / 13.0
  {
    assert 0.4 + EviC1 * 0.1 - EviC2 * 0.05 + EviL == 1.625;
  }

  /** The worked example as a one-element `band` array. */
  lemma EviExampleArray(nir: NdArray<real>, red: NdArray<real>, blue: NdArray<real>)
    requires nir == NdArray([1], [0.4]) && red == NdArray([1], [0.1]) && blue == NdArray([1], [0.05])
    ensures nir.Valid() && red.Valid() && blue.Valid()
    ensures Evi(nir, red, blue, ["band"]) == Done(LabeledArray(NdArray([1], [6.0 / 13.0]), ["band"]))
  {
    assert Product([1]) == Product([]) * 1;
    EviExample();
    assert EviElements(nir.data, red.data, blue.data) == [6.0 / 13.0];
  }
}
