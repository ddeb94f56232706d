/** The axis gridiser of `algorithm/stat_methods.py` (`gridiserFactory`, `fit_cell`,
    `gridise`): a point with one coordinate per axis is mapped to a tuple of cell indices.
    Each axis splits `[min, max]` into `divisions` equal bins; bins are half-open except the
    last, which also takes the upper edge. */
module Gridiser {
  import opened Common

  /** One entry of the shape tuple: `{"divisions": d, "min": lo, "max": hi}`. */
  datatype Axis = Axis(divisions: int, min: real, max: real)

  /** The exceptions `gridise` raises. */
  datatype GridError =
    | TypeError(expected: nat, given: nat)  // number of coordinates differs from the number of axes
    | ValueError(dim: nat)                  // the coordinate of axis `dim` lies outside [min, max]

  /** What `fit_cell` needs of an axis: at least one division, so that the loop variable is
      bound when the loop falls through, and distinct bounds, so that normalising does not
      divide by zero. */
  predicate ValidAxis(a: Axis)
  {
    a.divisions >= 1 && a.min != a.max
  }

  predicate ValidShape(shape: seq<Axis>)
  {
    forall k :: 0 <= k < |shape| ==> ValidAxis(shape[k])
  }

  /** `(val - min_val) / (max_val - min_val)`. */
  function Normalised(a: Axis, v: real): real
    requires a.min != a.max
  {
    Quotient(v - a.min, a.max - a.min)
  }

  /** The upper edge of bin `i`, `1 / divisions * (i + 1)`. */
  function Edge(d: nat, i: nat): real
    requires d >= 1
  {
    Quotient(1.0, d as real) * (i + 1) as real
  }

  /** The search of `fit_cell` from bin `i` on: the first bin whose upper edge lies above
      the normalised value, or the last bin when there is none. */
  function FirstBin(nv: real, d: nat, i: nat): (b: nat)
    requires d >= 1 && i < d
    ensures i <= b < d
    decreases d - i
  {
    if nv < Edge(d, i) || i == d - 1 then i else FirstBin(nv, d, i + 1)
  }

  /** The cell `fit_cell(dim, v)` returns for axis `a`, or the ValueError it raises. */
  function Cell(a: Axis, dim: nat, v: real): (r: Result<nat, GridError>)
    requires ValidAxis(a)
    ensures r.Ok? <==> InBounds(a, v)
    ensures r.Ok? ==> r.value < a.divisions
    ensures r.Err? ==> r == Err(ValueError(dim))
  {
    if v > a.max || v < a.min then Err(ValueError(dim))
    else Ok(FirstBin(Normalised(a, v), a.divisions, 0))
  }

  /** `fit_cell(dim, val)`: the bounds check, then a search over the bins with an early
      return; when no edge lies above the value, the last loop index is returned. */
  method FitCell(shape: seq<Axis>, dim: nat, val: real) returns (r: Result<nat, GridError>)
    requires dim < |shape| && ValidAxis(shape[dim])
    ensures r == Cell(shape[dim], dim, val)
  {
    var divisions := shape[dim].divisions;
    var maxVal, minVal := shape[dim].max, shape[dim].min;
    if val > maxVal || val < minVal {
      return Err(ValueError(dim));
    }
    var normalisedVal := Quotient(val - minVal, maxVal - minVal);
    var i := 0;
    while i < divisions
      invariant 0 <= i <= divisions
      invariant forall k :: 0 <= k < i ==> normalisedVal >= Edge(divisions, k)
    {
      if normalisedVal < Edge(divisions, i) {
        FirstBinSkips(normalisedVal, divisions, i);
        return Ok(i);
      }
      i := i + 1;
    }
    FirstBinSkips(normalisedVal, divisions, divisions - 1);
    return Ok(divisions - 1);
  }

  /** Bins whose edge the value has reached are skipped: the search from 0 gives what the
      search from `i` gives. */
  lemma {:induction false} FirstBinSkips(nv: real, d: nat, i: nat)
    requires d >= 1 && i < d
    requires forall k :: 0 <= k < i ==> nv >= Edge(d, k)
    ensures FirstBin(nv, d, 0) == FirstBin(nv, d, i)
  {
    if i > 0 {
      FirstBinSkips(nv, d, i - 1);
      assert nv >= Edge(d, i - 1);
    }
  }

  /** `gridise(*args)`: a TypeError when the number of coordinates is not the number of
      axes, otherwise the cells of the coordinates in axis order, the first ValueError
      raised stopping the comprehension. */
  function Gridise(shape: seq<Axis>, args: seq<real>): (r: Result<seq<nat>, GridError>)
    requires ValidShape(shape)
    ensures r.Err? && r.error.TypeError? <==> |args| != |shape|
    ensures r.Ok? ==> |r.value| == |shape| && forall k :: 0 <= k < |shape| ==> r.value[k] < shape[k].divisions
  {
    if |args| != |shape| then Err(TypeError(|shape|, |args|))
    else CellsFrom(shape, args, 0)
  }

  /** The comprehension from axis `dim` on. */
  function CellsFrom(shape: seq<Axis>, args: seq<real>, dim: nat): (r: Result<seq<nat>, GridError>)
    requires ValidShape(shape) && |args| == |shape| && dim <= |args|
    ensures r.Err? ==> r.error.ValueError?
    ensures r.Ok? ==> |r.value| == |args| - dim
    ensures r.Ok? ==> forall k :: dim <= k < |args| ==> r.value[k - dim] < shape[k].divisions
    decreases |args| - dim
  {
    if dim == |args| then Ok([])
    else match Cell(shape[dim], dim, args[dim])
      case Err(e) => Err(e)
      case Ok(c) =>
        match CellsFrom(shape, args, dim + 1)
        case Err(e) => Err(e)
        case Ok(cs) => Ok([c] + cs)
  }

  /** The point is in bounds on axis `dim`. */
  predicate InBounds(a: Axis, v: real)
  {
    a.min <= v <= a.max
  }

  /** From axis `dim` on, the comprehension succeeds exactly when every later coordinate is
      in bounds, and then yields their cells; otherwise it fails with the ValueError of the
      first coordinate out of bounds. */
  lemma {:induction false} CellsFromSpec(shape: seq<Axis>, args: seq<real>, dim: nat)
    requires ValidShape(shape) && |args| == |shape| && dim <= |args|
    ensures CellsFrom(shape, args, dim).Ok? <==>
      forall k :: dim <= k < |args| ==> InBounds(shape[k], args[k])
    ensures CellsFrom(shape, args, dim).Ok? ==>
      var cs := CellsFrom(shape, args, dim).value;
      |cs| == |args| - dim &&
      forall k :: dim <= k < |args| ==> Cell(shape[k], k, args[k]) == Ok(cs[k - dim])
    ensures CellsFrom(shape, args, dim).Err? ==>
      exists k :: dim <= k < |args| && !InBounds(shape[k], args[k]) &&
        CellsFrom(shape, args, dim).error == ValueError(k) &&
        forall m :: dim <= m < k ==> InBounds(shape[m], args[m])
    decreases |args| - dim
  {
    if dim < |args| {
      CellsFromSpec(shape, args, dim + 1);
      var here := Cell(shape[dim], dim, args[dim]);
      if here.Ok? && CellsFrom(shape, args, dim + 1).Err? {
        var e := CellsFrom(shape, args, dim + 1).error;
        var k :| dim + 1 <= k < |args| && !InBounds(shape[k], args[k]) && e == ValueError(k) &&
          forall m :: dim + 1 <= m < k ==> InBounds(shape[m], args[m]);
        assert InBounds(shape[dim], args[dim]);
      }
    }
  }

  /** `gridise` raises TypeError exactly on a wrong number of coordinates; otherwise it
      returns one cell per axis when every coordinate lies in its axis' bounds, each the
      cell `fit_cell` computes, and otherwise raises the ValueError of the first axis out
      of bounds. */
  lemma GridiseSpec(shape: seq<Axis>, args: seq<real>)
    requires ValidShape(shape)
    ensures Gridise(shape, args).Err? && Gridise(shape, args).error.TypeError? <==> |args| != |shape|
    ensures |args| != |shape| ==> Gridise(shape, args) == Err(TypeError(|shape|, |args|))
    ensures Gridise(shape, args).Ok? <==>
      |args| == |shape| && forall k :: 0 <= k < |args| ==> InBounds(shape[k], args[k])
    ensures Gridise(shape, args).Ok? ==>
      |Gridise(shape, args).value| == |shape| &&
      forall k :: 0 <= k < |args| ==> Cell(shape[k], k, args[k]) == Ok(Gridise(shape, args).value[k])
    ensures |args| == |shape| && Gridise(shape, args).Err? ==>
      exists k :: 0 <= k < |args| && !InBounds(shape[k], args[k]) &&
        Gridise(shape, args) == Err(ValueError(k)) &&
        forall m :: 0 <= m < k ==> InBounds(shape[m], args[m])
  {
    if |args| == |shape| {
      CellsFromSpec(shape, args, 0);
    }
  }

  // ---------------------------------------------------------------------------------------
  // Properties of one axis

  /** `fit_cell` returns the least bin whose upper edge lies above the normalised value, or
      the last bin when no edge does. */
  lemma CellIsLeastBin(a: Axis, dim: nat, v: real)
    requires ValidAxis(a) && InBounds(a, v)
    ensures Cell(a, dim, v).Ok?
    ensures var i := Cell(a, dim, v).value;
      var nv := Normalised(a, v);
      i < a.divisions &&
      (forall k :: 0 <= k < i ==> nv >= Edge(a.divisions, k)) &&
      (nv < Edge(a.divisions, i) || i == a.divisions - 1)
  {
    FirstBinLeast(Normalised(a, v), a.divisions, 0);
  }

  lemma {:induction false} FirstBinLeast(nv: real, d: nat, i: nat)
    requires d >= 1 && i < d
    ensures forall k :: i <= k < FirstBin(nv, d, i) ==> nv >= Edge(d, k)
    ensures nv < Edge(d, FirstBin(nv, d, i)) || FirstBin(nv, d, i) == d - 1
    decreases d - i
  {
    if !(nv < Edge(d, i) || i == d - 1) {
      FirstBinLeast(nv, d, i + 1);
    }
  }

  /** The edge of bin `i` is `(i + 1) / d`. */
  lemma EdgeValue(d: nat, i: nat)
    requires d >= 1
    ensures Edge(d, i) == Quotient((i + 1) as real, d as real)
  {
  }

  /** Every edge up to the last bin's lies in `(0, 1]`. */
  lemma EdgeInUnit(d: nat, i: nat)
    requires d >= 1 && i < d
    ensures 0.0 < Edge(d, i) <= 1.0
  {
    EdgeValue(d, i);
    QuotientMonotone((i + 1) as real, d as real, d as real);
  }

  /** The lower bound maps to bin 0. */
  lemma MinInFirstBin(a: Axis, dim: nat)
    requires ValidAxis(a) && a.min < a.max
    ensures Cell(a, dim, a.min) == Ok(0)
  {
    EdgeInUnit(a.divisions, 0);
  }

  /** The upper bound maps to the last bin: the top edge is closed. */
  lemma MaxInLastBin(a: Axis, dim: nat)
    requires ValidAxis(a) && a.min < a.max
    ensures Cell(a, dim, a.max) == Ok(a.divisions - 1)
  {
    QuotientSelf(a.max - a.min);
    FirstBinAtTop(a.divisions, 0);
  }

  lemma {:induction false} FirstBinAtTop(d: nat, i: nat)
    requires d >= 1 && i < d
    ensures FirstBin(1.0, d, i) == d - 1
    decreases d - i
  {
    EdgeInUnit(d, i);
    if i < d - 1 {
      FirstBinAtTop(d, i + 1);
    }
  }

  /** The cell index never decreases as the coordinate increases. */
  lemma CellMonotone(a: Axis, dim: nat, v1: real, v2: real)
    requires ValidAxis(a) && InBounds(a, v1) && InBounds(a, v2) && v1 <= v2
    ensures Cell(a, dim, v1).Ok? && Cell(a, dim, v2).Ok?
    ensures Cell(a, dim, v1).value <= Cell(a, dim, v2).value
  {
    QuotientMonotone(v1 - a.min, v2 - a.min, a.max - a.min);
    FirstBinMonotone(Normalised(a, v1), Normalised(a, v2), a.divisions, 0);
  }

  lemma {:induction false} FirstBinMonotone(nv1: real, nv2: real, d: nat, i: nat)
    requires d >= 1 && i < d && nv1 <= nv2
    ensures FirstBin(nv1, d, i) <= FirstBin(nv2, d, i)
    decreases d - i
  {
    if !(nv1 < Edge(d, i) || i == d - 1) {
      FirstBinMonotone(nv1, nv2, d, i + 1);
    }
  }
}
