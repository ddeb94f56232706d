/** Shared vocabulary: optional values, results, IEEE-style floats with NaN, the laws assumed
    of the transcendental functions the program calls, and the sums numpy computes. */
module Common {

  datatype Option<T> = None | Some(value: T)

  /** The outcome of an operation that may raise a Python exception. */
  datatype Result<T, E> = Ok(value: T) | Err(error: E)

  /** A numpy float64 slot: either NaN (missing / not yet computed) or a finite number. */
  datatype Float = NaN | Num(x: real)

  /** Laws of the square root the program takes (`math.sqrt`, `np.sqrt`, `** 0.5`).
      The function itself is a parameter of every member that uses it. */
  ghost predicate IsSqrt(sqrt: real -> real)
  {
    forall x: real {:trigger sqrt(x)} :: 0.0 <= x ==> 0.0 <= sqrt(x) && sqrt(x) * sqrt(x) == x
  }

  /** The one law of `math.exp` the mark-to-market relies on. */
  ghost predicate IsExp(exp: real -> real)
  {
    exp(0.0) == 1.0
  }

  /** Real division `a / b`. Kept behind a function so that proofs which never look inside a
      quotient are not burdened with nonlinear arithmetic. */
  function Quotient(a: real, b: real): real
    requires b != 0.0
  {
    a / b
  }

  /** Dividing by a positive number keeps the order. */
  lemma QuotientMonotone(a: real, b: real, d: real)
    requires a <= b && d > 0.0
    ensures Quotient(a, d) <= Quotient(b, d)
  {
  }

  /** Bounds on the numerator, scaled by a positive denominator, bound the quotient. */
  lemma QuotientBetween(a: real, d: real, lo: real, hi: real)
    requires d > 0.0 && d * lo <= a <= d * hi
    ensures lo <= Quotient(a, d) <= hi
  {
    assert a == Quotient(a, d) * d;
  }

  lemma QuotientSelf(a: real)
    requires a != 0.0
    ensures Quotient(a, a) == 1.0
  {
  }

  /** Sum of the elements, accumulated from the left as numpy's reductions do. */
  function Sum(s: seq<real>): real
  {
    if |s| == 0 then 0.0 else Sum(s[..|s| - 1]) + s[|s| - 1]
  }

  /** Sum of squares, `np.matmul(v, v.T)` for a vector `v`. */
  function SumSquares(s: seq<real>): real
  {
    if |s| == 0 then 0.0 else SumSquares(s[..|s| - 1]) + s[|s| - 1] * s[|s| - 1]
  }

  /** Dot product of two vectors of equal length, one row of `np.matmul`. */
  function Dot(a: seq<real>, b: seq<real>): real
    requires |a| == |b|
  {
    if |a| == 0 then 0.0 else Dot(a[..|a| - 1], b[..|b| - 1]) + a[|a| - 1] * b[|b| - 1]
  }

  lemma {:induction false} SumSquaresNonNegative(s: seq<real>)
    ensures SumSquares(s) >= 0.0
  {
    if |s| > 0 {
      SumSquaresNonNegative(s[..|s| - 1]);
    }
  }

  /** Non-negative reals with equal squares are equal. */
  lemma SquareInjective(r: real, v: real)
    requires r >= 0.0 && v >= 0.0 && r * r == v * v
    ensures r == v
  {
    assert (v - r) * (v + r) == 0.0;
    ProductZero(v - r, v + r);
  }

  lemma ProductZero(a: real, b: real)
    requires a * b == 0.0
    ensures a == 0.0 || b == 0.0
  {
  }

  /** A square root obeying IsSqrt is determined by its square: the root of `v * v` is `v`. */
  lemma SqrtOfSquare(sqrt: real -> real, v: real)
    requires IsSqrt(sqrt)
    requires v >= 0.0
    ensures sqrt(v * v) == v
  {
    assert v * v >= 0.0;
    SquareInjective(sqrt(v * v), v);
  }
}
