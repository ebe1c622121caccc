/** Types shared by the kernels: the error taxonomy, result wrappers, the
    dense n-dimensional array and a few real-number helpers. */
module Common {

  /** The library's error kinds. */
  datatype CoreError = InvalidArgument | NotEnoughData | ComputationError

  datatype Result<+T> = Ok(value: T) | Err(error: CoreError)

  datatype Option<+T> = None | Some(value: T)

  /** An `f64` that is either a number or NaN (only produced where the
      library explicitly writes `f64::NAN`). */
  datatype Float = Num(v: real) | NaN

  /** Number of elements of an array of the given shape. */
  function Product(shape: seq<nat>): (p: nat)
    ensures |shape| == 0 ==> p == 1
  {
    if |shape| == 0 then 1 else Product(shape[..|shape| - 1]) * shape[|shape| - 1]
  }

  /** A dense, row-major n-dimensional array: `data` holds the elements in
      the order in which `ndarray` iterates them. */
  datatype NdArray<T> = NdArray(shape: seq<nat>, data: seq<T>) {
    predicate Valid() {
      |data| == Product(shape)
    }

    function Ndim(): nat {
      |shape|
    }
  }

  function Abs(x: real): (r: real)
    ensures r >= 0.0 && (r == x || r == -x)
  {
    if x < 0.0 then -x else x
  }

  /** The threshold below which a denominator counts as zero. */
  const Epsilon: real := 0.0000000001
}
