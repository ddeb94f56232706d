/** The deterministic fixtures of `tests/test_stat_methods.py`, stated as methods whose
    results are proved equal to the expected arrays of `tests/test_data/data.py`. */
module Fixtures {
  import opened Common
  import opened StatMethods

  /** The sum of squares of a four-element window, written out. */
  lemma SumSquaresOfFour(s: seq<real>)
    requires |s| == 4
    ensures SumSquares(s) == s[0] * s[0] + s[1] * s[1] + s[2] * s[2] + s[3] * s[3]
  {
    var a, b, c := s[..1], s[..2], s[..3];
    assert a[..0] == [] && b[..1] == a && c[..2] == b && s[..3] == c;
    assert SumSquares(a) == s[0] * s[0];
    assert SumSquares(b) == SumSquares(a) + s[1] * s[1];
    assert SumSquares(c) == SumSquares(b) + s[2] * s[2];
  }

  /** Entry `j` of a moving sum of squares with window 4 over `1..9` is the sum of the
      squares of `j - 2 .. j + 1`. */
  lemma SumsEntry(arr: seq<real>, sums: seq<real>, j: nat, e: real)
    requires 3 <= j < |arr| && |sums| == |arr|
    requires forall k :: 0 <= k < |arr| ==> arr[k] == (k + 1) as real
    requires sums[j] == SumSquares(arr[j - 3..j + 1])
    requires e == ((j - 2) * (j - 2) + (j - 1) * (j - 1) + j * j + (j + 1) * (j + 1)) as real
    ensures sums[j] == e
  {
    var win := arr[j - 3..j + 1];
    assert win == [arr[j - 3], arr[j - 2], arr[j - 1], arr[j]];
    SumSquaresOfFour(win);
  }

  /** The moving sums of squares of `1..9` with window 4, entry by entry. */
  lemma SumsValues(arr: seq<real>, sums: seq<real>)
    requires |arr| == 9 && forall k :: 0 <= k < 9 ==> arr[k] == (k + 1) as real
    requires |sums| == 9
    requires forall j :: 0 <= j < 9 && j + 1 < 4 ==> sums[j] == 0.0
    requires forall j :: 4 <= j + 1 <= 9 ==> sums[j] == SumSquares(arr[j + 1 - 4..j + 1])
    ensures sums == [0.0, 0.0, 0.0, 30.0, 54.0, 86.0, 126.0, 174.0, 230.0]
  {
    SumsEntry(arr, sums, 3, 30.0);
    SumsEntry(arr, sums, 4, 54.0);
    SumsEntry(arr, sums, 5, 86.0);
    SumsEntry(arr, sums, 6, 126.0);
    SumsEntry(arr, sums, 7, 174.0);
    SumsEntry(arr, sums, 8, 230.0);
    var expected := [0.0, 0.0, 0.0, 30.0, 54.0, 86.0, 126.0, 174.0, 230.0];
    assert forall i :: 0 <= i < 9 ==> sums[i] == expected[i];
  }

  /** `sum_squares_moving_window(arr, 4)` for `arr = np.array(range(1, 10))` is
      `[0, 0, 0, 30, 54, 86, 126, 174, 230]`. */
  method SumSquaresExample(arr: seq<real>) returns (sums: seq<real>)
    requires |arr| == 9 && forall k :: 0 <= k < 9 ==> arr[k] == (k + 1) as real
    ensures sums == [0.0, 0.0, 0.0, 30.0, 54.0, 86.0, 126.0, 174.0, 230.0]
  {
    sums := SumSquaresMovingWindow(arr, 4);
    SumsValues(arr, sums);
  }

  /** The count of a three-element window, written out. */
  lemma CountLessOfThree(s: seq<real>, v: real)
    requires |s| == 3
    ensures CountLess(s, v) == (if s[0] < v then 1 else 0) + (if s[1] < v then 1 else 0) + (if s[2] < v then 1 else 0)
  {
    var a, b := s[..1], s[..2];
    assert a[..0] == [] && b[..1] == a && s[..2] == b;
    assert CountLess(a, v) == if s[0] < v then 1 else 0;
    assert CountLess(b, v) == CountLess(a, v) + if s[1] < v then 1 else 0;
  }

  /** Entry `j` of a moving percentile with window 3 ranks `arr[j]` among the two values
      before it. */
  lemma PercentileEntry(arr: seq<real>, out: seq<Float>, j: nat, e: real)
    requires 2 <= j < |arr| && out == MovingPercentiles(arr, 3)
    requires e == Quotient(((if arr[j - 2] < arr[j] then 1 else 0) + (if arr[j - 1] < arr[j] then 1 else 0)) as real, 3.0)
    ensures out[j] == Num(e)
  {
    var win := arr[j - 2..j + 1];
    assert win == [arr[j - 2], arr[j - 1], arr[j]];
    CountLessOfThree(win, arr[j]);
  }

  /** `vols` holds the ten dummy implied vols of the percentile fixture. */
  predicate DummyImpliedVols(vols: seq<real>)
  {
    |vols| == 10 && vols[0] == 0.8 && vols[1] == 0.6 && vols[2] == 0.2 && vols[3] == 0.1 &&
    vols[4] == 0.9 && vols[5] == 0.7 && vols[6] == 0.5 && vols[7] == 0.4 && vols[8] == 0.7 && vols[9] == 0.3
  }

  /** The first half of the moving percentiles with window 3 of the dummy implied vols. */
  lemma PercentileValuesLow(vols: seq<real>, out: seq<Float>)
    requires DummyImpliedVols(vols) && out == MovingPercentiles(vols, 3)
    ensures |out| == 10 && out[0] == NaN && out[1] == NaN
    ensures out[2] == Num(0.0) && out[3] == Num(0.0) && out[4] == Num(2.0 / 3.0)
  {
    PercentileEntry(vols, out, 2, 0.0);
    PercentileEntry(vols, out, 3, 0.0);
    PercentileEntry(vols, out, 4, 2.0 / 3.0);
  }

  /** The second half of the moving percentiles with window 3 of the dummy implied vols. */
  lemma PercentileValuesHigh(vols: seq<real>, out: seq<Float>)
    requires DummyImpliedVols(vols) && out == MovingPercentiles(vols, 3)
    ensures out[5] == Num(1.0 / 3.0) && out[6] == Num(0.0) && out[7] == Num(0.0)
    ensures out[8] == Num(2.0 / 3.0) && out[9] == Num(0.0)
  {
    PercentileEntry(vols, out, 5, 1.0 / 3.0);
    PercentileEntry(vols, out, 6, 0.0);
    PercentileEntry(vols, out, 7, 0.0);
    PercentileEntry(vols, out, 8, 2.0 / 3.0);
    PercentileEntry(vols, out, 9, 0.0);
  }

  /** Ten entries that match the expected percentiles make the whole array match. */
  lemma PercentileArray(out: seq<Float>)
    requires |out| == 10 && out[0] == NaN && out[1] == NaN
    requires out[2] == Num(0.0) && out[3] == Num(0.0) && out[4] == Num(2.0 / 3.0) && out[5] == Num(1.0 / 3.0)
    requires out[6] == Num(0.0) && out[7] == Num(0.0) && out[8] == Num(2.0 / 3.0) && out[9] == Num(0.0)
    ensures out == [NaN, NaN, Num(0.0), Num(0.0), Num(2.0 / 3.0), Num(1.0 / 3.0), Num(0.0), Num(0.0),
                    Num(2.0 / 3.0), Num(0.0)]
  {
    var expected := [NaN, NaN, Num(0.0), Num(0.0), Num(2.0 / 3.0), Num(1.0 / 3.0), Num(0.0), Num(0.0),
                     Num(2.0 / 3.0), Num(0.0)];
    assert forall i :: 0 <= i < 10 ==> out[i] == expected[i];
  }

  /** `calc_moving_percentile(dummy_implied_vols, 3)` is
      `[NaN, NaN, 0, 0, 2/3, 1/3, 0, 0, 2/3, 0]`. */
  method MovingPercentileExample() returns (out: seq<Float>)
    ensures out == [NaN, NaN, Num(0.0), Num(0.0), Num(2.0 / 3.0), Num(1.0 / 3.0), Num(0.0), Num(0.0),
                    Num(2.0 / 3.0), Num(0.0)]
  {
    var vols := [0.8, 0.6, 0.2, 0.1, 0.9, 0.7, 0.5, 0.4, 0.7, 0.3];
    out := MovingPercentile(vols, 3);
    PercentileValuesLow(vols, out);
    PercentileValuesHigh(vols, out);
    PercentileArray(out);
  }
}
