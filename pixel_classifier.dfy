/** The rule-based land-cover classifier (src/workflows.rs, lines 301-395):
    a priority chain of threshold rules over seven bands, mapped over a
    raster. */
module PixelClassifier {
  import opened Common

  /** The IEEE value of a quotient `num / den` of finite numbers: a real
      number, or an infinity or NaN when the denominator is zero. */
  datatype Quotient = Finite(v: real) | PosInf | NegInf | NotANumber

  function Divide(num: real, den: real): (q: Quotient)
    ensures den != 0.0 ==> q == Finite(num / den)
    ensures den == 0.0 ==> (q == PosInf <==> num > 0.0) && (q == NegInf <==> num < 0.0)
    ensures q == NotANumber <==> den == 0.0 && num == 0.0
  {
    if den != 0.0 then Finite(num / den)
    else if num > 0.0 then PosInf
    else if num < 0.0 then NegInf
    else NotANumber
  }

  /** `q > th` for a finite threshold; NaN compares false. */
  predicate Above(q: Quotient, th: real) {
    match q
    case Finite(v) => v > th
    case PosInf => true
    case NegInf => false
    case NotANumber => false
  }

  /** `q < th` for a finite threshold; NaN compares false. */
  predicate Below(q: Quotient, th: real) {
    match q
    case Finite(v) => v < th
    case PosInf => false
    case NegInf => true
    case NotANumber => false
  }

  /** A positive denominator makes the comparison an ordinary one. */
  lemma AboveWithPositiveDenominator(num: real, den: real, th: real)
    requires den > 0.0
    ensures Above(Divide(num, den), th) <==> num > th * den
  {
    assert num / den * den == num;
    if num / den > th {
      assert (num / den - th) * den > 0.0;
    } else {
      assert (th - num / den) * den >= 0.0;
    }
  }

  /** The seven band values of one pixel. */
  datatype Bands = Bands(b: real, g: real, r: real, n: real, s1: real, s2: real, t: real)

  /** Class codes. */
  const Unclassified: nat := 0
  const CloudShadow: nat := 1
  const Cloud: nat := 2
  const Snow: nat := 3
  const Water: nat := 4
  const Vegetation: nat := 5
  const BareSoil: nat := 6
  const Urban: nat := 7

  function Ndvi(p: Bands): Quotient {
    Divide(p.n - p.r, p.n + p.r + Epsilon)
  }

  function Ndwi(p: Bands): Quotient {
    Divide(p.g - p.n, p.g + p.n + Epsilon)
  }

  function Ndsi(p: Bands): Quotient {
    Divide(p.g - p.s1, p.g + p.s1 + Epsilon)
  }

  function Brightness(p: Bands): real {
    (p.b + p.g + p.r + p.n + p.s1 + p.s2) / 6.0
  }

  /** `classify_pixel`: the early-return chain as written, with the cloud
      and shadow tests nested under the thermal/brightness gate. */
  function ClassifyPixel(p: Bands): (c: nat)
    ensures c <= Urban
  {
    var ndvi := Ndvi(p);
    var ndwi := Ndwi(p);
    var ndsi := Ndsi(p);
    var brightness := Brightness(p);
    if (p.t < 285.0 || brightness > 0.4) && p.t < 280.0 && brightness < 0.1 then CloudShadow
    else if (p.t < 285.0 || brightness > 0.4) && p.b > 0.2 && p.g > 0.2 && p.r > 0.2 then Cloud
    else if Above(ndsi, 0.4) && p.r > 0.15 && p.g > 0.2 then Snow
    else if Above(ndwi, 0.15) || (Above(ndwi, 0.05) && p.n < 0.15) || (p.b > p.g && p.b > p.r) then Water
    else if Above(ndvi, 0.2) then Vegetation
    else if p.s2 > p.s1 && Above(Divide(p.s1 - p.n, p.s1 + p.n + Epsilon), 0.1) then BareSoil
    else if Below(ndvi, 0.1) && Abs(p.s1 - p.s2) < 0.1 then Urban
    else Unclassified
  }

  /** The rules in priority order, each stated on its own: shadow, cloud,
      snow, water, vegetation, bare soil, urban. */
  function Rules(p: Bands): (rules: seq<bool>)
    ensures |rules| == 7
  {
    var brightness := Brightness(p);
    [ p.t < 280.0 && brightness < 0.1,
      (p.t < 285.0 || brightness > 0.4) && p.b > 0.2 && p.g > 0.2 && p.r > 0.2,
      Above(Ndsi(p), 0.4) && p.r > 0.15 && p.g > 0.2,
      Above(Ndwi(p), 0.15) || (Above(Ndwi(p), 0.05) && p.n < 0.15) || (p.b > p.g && p.b > p.r),
      Above(Ndvi(p), 0.2),
      p.s2 > p.s1 && Above(Divide(p.s1 - p.n, p.s1 + p.n + Epsilon), 0.1),
      Below(Ndvi(p), 0.1) && Abs(p.s1 - p.s2) < 0.1 ]
  }

  /** One plus the position of the first true rule at or after `i`, or 0. */
  function FirstMatch(rules: seq<bool>, i: nat): (c: nat)
    requires i <= |rules|
    ensures c == 0 <==> forall j :: i <= j < |rules| ==> !rules[j]
    ensures c != 0 ==> i < c <= |rules| && rules[c - 1] && forall j :: i <= j < c - 1 ==> !rules[j]
    decreases |rules| - i
  {
    if i == |rules| then 0
    else if rules[i] then i + 1
    else FirstMatch(rules, i + 1)
  }

  /** The nested chain is the first-match rule list: class `c > 0` is
      returned exactly when rule `c` holds and no earlier rule does. */
  lemma ClassifyPixelIsFirstMatch(p: Bands)
    ensures ClassifyPixel(p) == FirstMatch(Rules(p), 0)
  {
    var rules := Rules(p);
    assert FirstMatch(rules, 6) == if rules[6] then 7 else 0;
    assert FirstMatch(rules, 5) == if rules[5] then 6 else FirstMatch(rules, 6);
    assert FirstMatch(rules, 4) == if rules[4] then 5 else FirstMatch(rules, 5);
    assert FirstMatch(rules, 3) == if rules[3] then 4 else FirstMatch(rules, 4);
    assert FirstMatch(rules, 2) == if rules[2] then 3 else FirstMatch(rules, 3);
    assert FirstMatch(rules, 1) == if rules[1] then 2 else FirstMatch(rules, 2);
  }

  /** Cloud shadow is reported exactly for cold, dark pixels. */
  lemma ShadowExactly(p: Bands)
    ensures ClassifyPixel(p) == CloudShadow <==> p.t < 280.0 && Brightness(p) < 0.1
  {
  }

  /** The classifier mapped over a raster: the output has blue's shape, and
      each cell is the class of the same-index cell of every band. */
  method ComplexClassification(blue: NdArray<real>, green: NdArray<real>, red: NdArray<real>,
                               nir: NdArray<real>, swir1: NdArray<real>, swir2: NdArray<real>,
                               temp: NdArray<real>) returns (out: NdArray<nat>)
    requires blue.Valid()
    requires green.shape == red.shape == nir.shape == swir1.shape == swir2.shape == temp.shape == blue.shape
    requires green.Valid() && red.Valid() && nir.Valid() && swir1.Valid() && swir2.Valid() && temp.Valid()
    ensures out.shape == blue.shape && out.Valid()
    ensures forall i :: 0 <= i < |out.data| ==>
      out.data[i] == ClassifyPixel(Bands(blue.data[i], green.data[i], red.data[i], nir.data[i],
                                         swir1.data[i], swir2.data[i], temp.data[i]))
  {
    var n := |blue.data|;
    var buffer := new nat[n](_ => Unclassified);
    for i := 0 to n
      invariant forall j :: 0 <= j < i ==>
        buffer[j] == ClassifyPixel(Bands(blue.data[j], green.data[j], red.data[j], nir.data[j],
                                         swir1.data[j], swir2.data[j], temp.data[j]))
    {
      buffer[i] := ClassifyPixel(Bands(blue.data[i], green.data[i], red.data[i], nir.data[i],
                                       swir1.data[i], swir2.data[i], temp.data[i]));
    }
    out := NdArray(blue.shape, buffer[..]);
  }
}
