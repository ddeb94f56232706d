/** The hit-rate heat map of `algorithm/graphics.py` (`PandasHeatMapPlot`): every row of the
    frame is binned by the gridiser into a cell written as the string of its index tuple,
    rows are grouped by that string into per-cell statistics, the string is parsed back into
    coordinates, and the hit rates are written into a zero matrix. */
module Graphics {
  import opened Common
  import opened Gridiser
  import opened PyText

  // ---------------------------------------------------------------------------------------
  // _parse_tuple

  /** The quote and parenthesis characters `_parse_tuple` deletes, in its order. */
  function Cleaned(val: string): string
  {
    Remove(Remove(Remove(Remove(val, '\''), '"'), '('), ')')
  }

  /** `int` applied to each piece in turn; the first piece it rejects raises. */
  function ParseAll(pieces: seq<string>): (r: Result<seq<int>, ParseError>)
    ensures r.Ok? <==> forall k :: 0 <= k < |pieces| ==> ParseInt(pieces[k]).Ok?
    ensures r.Ok? ==> |r.value| == |pieces| && forall k :: 0 <= k < |pieces| ==> ParseInt(pieces[k]) == Ok(r.value[k])
  {
    if |pieces| == 0 then Ok([])
    else match ParseInt(pieces[0])
      case Err(e) => Err(e)
      case Ok(v) =>
        match ParseAll(pieces[1..])
        case Err(e) => Err(e)
        case Ok(vs) => Ok([v] + vs)
  }

  /** The comma-separated pieces of a cleaned tuple string. */
  function TuplePieces(val: string): seq<string>
  {
    Split(Cleaned(val), ',')
  }

  /** `_parse_tuple(val)`: delete quotes and parentheses, split on commas, `int` each piece. */
  function ParseTuple(val: string): (r: Result<seq<int>, ParseError>)
    ensures r.Ok? <==> forall k :: 0 <= k < |TuplePieces(val)| ==> ParseInt(TuplePieces(val)[k]).Ok?
    ensures r.Ok? ==> |r.value| == |TuplePieces(val)|
    ensures r.Ok? ==> forall k :: 0 <= k < |r.value| ==> ParseInt(TuplePieces(val)[k]) == Ok(r.value[k])
  {
    ParseAll(TuplePieces(val))
  }

  /** The characters of a joined tuple body. */
  predicate BodyChar(c: char)
  {
    IntChar(c) || c == ',' || c == ' '
  }

  lemma {:induction false} JoinedChars(t: seq<int>)
    requires |t| > 0
    ensures forall k :: 0 <= k < |Joined(t)| ==> BodyChar(Joined(t)[k])
    decreases |t|
  {
    IntReprChars(t[0]);
    if |t| > 1 {
      JoinedChars(t[1..]);
      var a, b := IntRepr(t[0]), Joined(t[1..]);
      assert Joined(t) == a + ", " + b;
      forall k | 0 <= k < |Joined(t)| ensures BodyChar(Joined(t)[k]) {
        if k < |a| {
          assert Joined(t)[k] == a[k];
        } else if k >= |a| + 2 {
          assert Joined(t)[k] == b[k - |a| - 2];
        }
      }
    }
  }

  lemma BodyHasNoQuotesOrParens(b: string)
    requires forall k :: 0 <= k < |b| ==> BodyChar(b[k])
    ensures '\'' !in b && '"' !in b && '(' !in b && ')' !in b
  {
    forall k | 0 <= k < |b| ensures b[k] != '\'' && b[k] != '"' && b[k] != '(' && b[k] != ')' {
      assert BodyChar(b[k]);
    }
  }

  lemma RemoveThree(x: string, y: string, z: string, c: char)
    ensures Remove(x + y + z, c) == Remove(x, c) + Remove(y, c) + Remove(z, c)
  {
    RemoveAppend(x + y, z, c);
    RemoveAppend(x, y, c);
  }

  /** Removing a character that is neither a parenthesis nor in the body keeps the
      parenthesised body. */
  lemma RemoveAbsentFromParens(b: string, c: char)
    requires c !in b && c != '(' && c != ')'
    ensures Remove("(" + b + ")", c) == "(" + b + ")"
  {
    RemoveSplice("(", b, ")", c);
    RemoveChar('(', c);
    RemoveChar(')', c);
  }

  lemma RemoveParens(b: string)
    requires '(' !in b && ')' !in b
    ensures Remove(Remove("(" + b + ")", '('), ')') == b
  {
    RemoveSplice("(", b, ")", '(');
    RemoveChar('(', '(');
    RemoveChar(')', '(');
    assert Remove("(" + b + ")", '(') == "" + b + ")";
    RemoveSplice("", b, ")", ')');
    RemoveChar(')', ')');
  }

  /** Removing `c` from a string whose middle part lacks it. */
  lemma RemoveSplice(x: string, b: string, z: string, c: char)
    requires c !in b
    ensures Remove(x + b + z, c) == Remove(x, c) + b + Remove(z, c)
  {
    RemoveThree(x, b, z, c);
    RemoveAbsent(b, c);
  }

  lemma RemoveChar(x: char, c: char)
    ensures Remove([x], c) == if x == c then "" else [x]
  {
    assert [x][1..] == [];
  }

  /** Deleting quotes and parentheses from a parenthesised body of digits, signs, commas
      and blanks leaves the body. */
  lemma CleanedParens(b: string)
    requires forall k :: 0 <= k < |b| ==> BodyChar(b[k])
    ensures Cleaned("(" + b + ")") == b
  {
    BodyHasNoQuotesOrParens(b);
    RemoveAbsentFromParens(b, '\'');
    RemoveAbsentFromParens(b, '"');
    RemoveParens(b);
  }

  /** For two or more elements, deleting quotes and parentheses from `str(t)` leaves the
      elements joined by ", ". */
  lemma CleanedRepr(t: seq<int>)
    requires |t| >= 2
    ensures Cleaned(TupleRepr(t)) == Joined(t)
  {
    JoinedChars(t);
    CleanedParens(Joined(t));
  }

  /** The pieces `split(",")` yields from a joined body: the first element as written, every
      later one after the blank that followed its comma. */
  function Pieces(t: seq<int>, pad: string): seq<string>
  {
    if |t| == 0 then [] else [pad + IntRepr(t[0])] + Pieces(t[1..], " ")
  }

  lemma {:induction false} SplitJoined(t: seq<int>, pad: string)
    requires |t| > 0 && (pad == "" || pad == " ")
    ensures Split(pad + Joined(t), ',') == Pieces(t, pad)
    decreases |t|
  {
    var a := pad + IntRepr(t[0]);
    NoCommaInRepr(t[0], pad);
    if |t| == 1 {
      SplitAbsent(a, ',');
      assert pad + Joined(t) == a;
    } else {
      var rest := " " + Joined(t[1..]);
      JoinedCons(t, pad);
      SplitAt(a, rest, ',');
      SplitJoined(t[1..], " ");
    }
  }

  lemma NoCommaInRepr(i: int, pad: string)
    requires pad == "" || pad == " "
    ensures ',' !in pad + IntRepr(i)
  {
    var a := pad + IntRepr(i);
    IntReprChars(i);
    forall k | 0 <= k < |a| ensures a[k] != ',' {
      if k >= |pad| {
        assert a[k] == IntRepr(i)[k - |pad|];
      }
    }
  }

  /** A joined body is its first element, a comma, and the blank-led rest. */
  lemma JoinedCons(t: seq<int>, pad: string)
    requires |t| > 1
    ensures pad + Joined(t) == (pad + IntRepr(t[0])) + [','] + (" " + Joined(t[1..]))
  {
    var x, j := IntRepr(t[0]), Joined(t[1..]);
    assert Joined(t) == x + ", " + j;
    CommaSplice(pad, x, j);
  }

  lemma CommaSplice(pad: string, x: string, j: string)
    ensures pad + (x + ", " + j) == (pad + x) + [','] + (" " + j)
  {
    assert ", " + j == [','] + (" " + j);
  }

  lemma {:induction false} ParsePieces(t: seq<int>, pad: string)
    requires pad == "" || pad == " "
    ensures ParseAll(Pieces(t, pad)) == Ok(t)
    decreases |t|
  {
    if |t| > 0 {
      var p := Pieces(t, pad);
      ParseIntRepr(t[0], pad);
      assert p[1..] == Pieces(t[1..], " ");
      ParsePieces(t[1..], " ");
      ParseAllCons(p, t[0], t[1..]);
      assert [t[0]] + t[1..] == t;
    }
  }

  /** A first piece that parses, followed by pieces that parse. */
  lemma ParseAllCons(pieces: seq<string>, v: int, vs: seq<int>)
    requires |pieces| > 0 && ParseInt(pieces[0]) == Ok(v) && ParseAll(pieces[1..]) == Ok(vs)
    ensures ParseAll(pieces) == Ok([v] + vs)
  {
  }

  /** `_parse_tuple(str(t)) == t` for every tuple of at least two ints, which covers every
      string in the `cell` column. */
  lemma ParseTupleRoundTrip(t: seq<int>)
    requires |t| >= 2
    ensures ParseTuple(TupleRepr(t)) == Ok(t)
  {
    CleanedRepr(t);
    SplitJoined(t, "");
    assert "" + Joined(t) == Joined(t);
    ParsePieces(t, "");
  }

  /** The round trip needs two elements: `str((x,))` is `(x,)`, whose trailing comma leaves
      an empty last piece that `int` rejects. */
  lemma ParseTupleSingletonFails(x: int)
    ensures ParseTuple(TupleRepr([x])).Err?
  {
    var a := IntRepr(x);
    CleanedSingleton(x);
    IntReprChars(x);
    assert ',' !in a by {
      forall k | 0 <= k < |a| ensures a[k] != ',' {
        assert IntChar(a[k]);
      }
    }
    assert a + [','] == a + [','] + "";
    SplitAt(a, "", ',');
    var pieces := Split(Cleaned(TupleRepr([x])), ',');
    assert pieces == [a, ""];
    ParseIntRepr(x, "");
    assert ParseAll(pieces[1..]).Err? by {
      assert pieces[1..] == [""];
      assert ParseInt("").Err?;
    }
  }

  lemma CleanedSingleton(x: int)
    ensures Cleaned(TupleRepr([x])) == IntRepr(x) + [',']
  {
    var a := IntRepr(x);
    IntReprChars(x);
    var b := a + [','];
    forall k | 0 <= k < |b| ensures BodyChar(b[k]) {
      if k < |a| {
        assert b[k] == a[k];
      }
    }
    assert TupleRepr([x]) == "(" + b + ")";
    CleanedParens(b);
  }

  // ---------------------------------------------------------------------------------------
  // _data_to_grid

  /** One row of the frame: the x and y values and the boolean label column. */
  datatype Row = Row(x: real, y: real, p: bool)

  function Xs(rows: seq<Row>): (s: seq<real>)
    ensures |s| == |rows|
  {
    seq(|rows|, i requires 0 <= i < |rows| => rows[i].x)
  }

  function Ys(rows: seq<Row>): (s: seq<real>)
    ensures |s| == |rows|
  {
    seq(|rows|, i requires 0 <= i < |rows| => rows[i].y)
  }

  /** `Series.min()`: a lower bound of the column that the column attains. */
  function MinOf(s: seq<real>): (m: real)
    requires |s| > 0
    ensures forall k :: 0 <= k < |s| ==> m <= s[k]
    ensures exists k :: 0 <= k < |s| && s[k] == m
  {
    if |s| == 1 then s[0]
    else
      var m := MinOf(s[..|s| - 1]);
      assert forall k :: 0 <= k < |s| - 1 ==> s[..|s| - 1][k] == s[k];
      if s[|s| - 1] < m then s[|s| - 1] else m
  }

  /** `Series.max()`: an upper bound of the column that the column attains. */
  function MaxOf(s: seq<real>): (m: real)
    requires |s| > 0
    ensures forall k :: 0 <= k < |s| ==> s[k] <= m
    ensures exists k :: 0 <= k < |s| && s[k] == m
  {
    if |s| == 1 then s[0]
    else
      var m := MaxOf(s[..|s| - 1]);
      assert forall k :: 0 <= k < |s| - 1 ==> s[..|s| - 1][k] == s[k];
      if s[|s| - 1] > m then s[|s| - 1] else m
  }

  /** The frame `_data_to_grid` can bin: at least one row, at least one division per axis,
      and neither column constant (a constant column divides by zero in `fit_cell`). */
  predicate Binnable(rows: seq<Row>, xdivs: int, ydivs: int)
  {
    |rows| > 0 && xdivs >= 1 && ydivs >= 1 &&
    MinOf(Xs(rows)) != MaxOf(Xs(rows)) && MinOf(Ys(rows)) != MaxOf(Ys(rows))
  }

  /** The two axes `_data_to_grid` builds from the observed extremes of each column. */
  function GridShape(rows: seq<Row>, xdivs: int, ydivs: int): (shape: seq<Axis>)
    requires Binnable(rows, xdivs, ydivs)
    ensures ValidShape(shape) && |shape| == 2
  {
    [Axis(xdivs, MinOf(Xs(rows)), MaxOf(Xs(rows))), Axis(ydivs, MinOf(Ys(rows)), MaxOf(Ys(rows)))]
  }

  /** The `cell` column: `str(gridise(x, y))` row by row, the first gridiser exception
      propagating. */
  function CellColumn(shape: seq<Axis>, rows: seq<Row>): (r: Result<seq<string>, GridError>)
    requires ValidShape(shape)
    ensures r.Ok? ==> |r.value| == |rows|
  {
    if |rows| == 0 then Ok([])
    else match CellColumn(shape, rows[..|rows| - 1])
      case Err(e) => Err(e)
      case Ok(cells) =>
        match Gridise(shape, [rows[|rows| - 1].x, rows[|rows| - 1].y])
        case Err(e) => Err(e)
        case Ok(c) => Ok(cells + [TupleRepr(c)])
  }

  /** The exceptions the heat map can raise while binning or while parsing cells back. */
  datatype PlotError = BinError(grid: GridError) | CellParseError(parse: ParseError)

  /** What `_data_to_grid` returns: the grouped frame of the binned rows. */
  function DataToGridSpec(rows: seq<Row>, xdivs: int, ydivs: int): Result<seq<CellStats>, PlotError>
    requires Binnable(rows, xdivs, ydivs)
  {
    match CellColumn(GridShape(rows, xdivs, ydivs), rows)
    case Err(e) => Err(BinError(e))
    case Ok(cells) =>
      match GroupDataframe(rows, cells)
      case Err(e) => Err(CellParseError(e))
      case Ok(g) => Ok(g)
  }

  /** The bounds are the observed extremes, so every row is inside both axes and the
      gridiser accepts it, returning two in-range indices. */
  lemma RowInBounds(rows: seq<Row>, xdivs: int, ydivs: int, i: nat)
    requires Binnable(rows, xdivs, ydivs) && i < |rows|
    ensures var g := Gridise(GridShape(rows, xdivs, ydivs), [rows[i].x, rows[i].y]);
      g.Ok? && |g.value| == 2 && g.value[0] < xdivs && g.value[1] < ydivs
  {
    var shape := GridShape(rows, xdivs, ydivs);
    var args := [rows[i].x, rows[i].y];
    assert Xs(rows)[i] == rows[i].x && Ys(rows)[i] == rows[i].y;
    assert InBounds(shape[0], args[0]) && InBounds(shape[1], args[1]);
    GridiseSpec(shape, args);
    CellIsLeastBin(shape[0], 0, args[0]);
    CellIsLeastBin(shape[1], 1, args[1]);
  }

  /** A cell string that parses back to two in-range indices and is their representation. */
  predicate WellFormedCell(s: string, xdivs: int, ydivs: int)
  {
    ParseTuple(s).Ok? && |ParseTuple(s).value| == 2 && TupleRepr(ParseTuple(s).value) == s &&
    0 <= ParseTuple(s).value[0] < xdivs && 0 <= ParseTuple(s).value[1] < ydivs
  }

  /** The cell `gridise` assigns to row `i`. */
  function GridCell(rows: seq<Row>, xdivs: int, ydivs: int, i: nat): (t: seq<nat>)
    requires Binnable(rows, xdivs, ydivs) && i < |rows|
    ensures |t| == 2 && t[0] < xdivs && t[1] < ydivs
  {
    RowInBounds(rows, xdivs, ydivs, i);
    Gridise(GridShape(rows, xdivs, ydivs), [rows[i].x, rows[i].y]).value
  }

  /** The strings of the cells of the first `n` rows. */
  function CellStrings(rows: seq<Row>, xdivs: int, ydivs: int, n: nat): (cells: seq<string>)
    requires Binnable(rows, xdivs, ydivs) && n <= |rows|
    ensures |cells| == n
  {
    seq(n, i requires 0 <= i < n => TupleRepr(GridCell(rows, xdivs, ydivs, i)))
  }

  /** No row raises: the cell column of the first `n` rows is their cell strings. */
  lemma {:induction false} CellColumnOk(rows: seq<Row>, xdivs: int, ydivs: int, n: nat)
    requires Binnable(rows, xdivs, ydivs) && n <= |rows|
    ensures CellColumn(GridShape(rows, xdivs, ydivs), rows[..n]) == Ok(CellStrings(rows, xdivs, ydivs, n))
  {
    if n > 0 {
      CellColumnOk(rows, xdivs, ydivs, n - 1);
      assert rows[..n][..n - 1] == rows[..n - 1];
      assert rows[..n][n - 1] == rows[n - 1];
      RowInBounds(rows, xdivs, ydivs, n - 1);
      CellStringsSnoc(rows, xdivs, ydivs, n);
    }
  }

  lemma CellStringsSnoc(rows: seq<Row>, xdivs: int, ydivs: int, n: nat)
    requires Binnable(rows, xdivs, ydivs) && 0 < n <= |rows|
    ensures CellStrings(rows, xdivs, ydivs, n) ==
      CellStrings(rows, xdivs, ydivs, n - 1) + [TupleRepr(GridCell(rows, xdivs, ydivs, n - 1))]
  {
    var a, b := CellStrings(rows, xdivs, ydivs, n), CellStrings(rows, xdivs, ydivs, n - 1);
    SnocOfPrefix(a, b, TupleRepr(GridCell(rows, xdivs, ydivs, n - 1)));
  }

  lemma SnocOfPrefix(a: seq<string>, b: seq<string>, x: string)
    requires |a| == |b| + 1 && a[|b|] == x
    requires forall i :: 0 <= i < |b| ==> a[i] == b[i]
    ensures a == b + [x]
  {
  }

  /** Every cell string parses back to its two in-range indices. */
  lemma CellStringsWellFormed(rows: seq<Row>, xdivs: int, ydivs: int)
    requires Binnable(rows, xdivs, ydivs)
    ensures var cells := CellStrings(rows, xdivs, ydivs, |rows|);
      forall i :: 0 <= i < |cells| ==> WellFormedCell(cells[i], xdivs, ydivs)
  {
    forall i | 0 <= i < |rows|
      ensures WellFormedCell(TupleRepr(GridCell(rows, xdivs, ydivs, i)), xdivs, ydivs)
    {
      ParseTupleRoundTrip(GridCell(rows, xdivs, ydivs, i));
    }
  }

  /** `_data_to_grid(df, xdivs, ydivs, ...)`: the `cell` column is filled row by row with
      `str(gridise(x, y))`, then the frame is grouped. No row raises. */
  method DataToGrid(rows: seq<Row>, xdivs: int, ydivs: int) returns (grouped: seq<CellStats>)
    requires Binnable(rows, xdivs, ydivs)
    ensures DataToGridSpec(rows, xdivs, ydivs) == Ok(grouped)
  {
    var shape := GridShape(rows, xdivs, ydivs);
    var cells: seq<string> := [];
    for i := 0 to |rows|
      invariant CellColumn(shape, rows[..i]) == Ok(cells)
    {
      RowInBounds(rows, xdivs, ydivs, i);
      var g := Gridise(shape, [rows[i].x, rows[i].y]);
      CellColumnSnoc(shape, rows, i, cells, g.value);
      cells := cells + [TupleRepr(g.value)];
    }
    assert rows[..|rows|] == rows;
    CellColumnOk(rows, xdivs, ydivs, |rows|);
    CellStringsWellFormed(rows, xdivs, ydivs);
    GroupParses(rows, cells, xdivs, ydivs);
    grouped := GroupDataframe(rows, cells).value;
  }

  /** Binning one more row appends its cell string to the column. */
  lemma CellColumnSnoc(shape: seq<Axis>, rows: seq<Row>, i: nat, cells: seq<string>, c: seq<nat>)
    requires ValidShape(shape) && i < |rows|
    requires CellColumn(shape, rows[..i]) == Ok(cells)
    requires Gridise(shape, [rows[i].x, rows[i].y]) == Ok(c)
    ensures CellColumn(shape, rows[..i + 1]) == Ok(cells + [TupleRepr(c)])
  {
    assert rows[..i + 1][..i] == rows[..i];
  }

  // ---------------------------------------------------------------------------------------
  // _group_dataframe

  /** One row of the grouped frame: the cell string (the index), the mean x and y of its
      rows, the row count, the count of true labels, their ratio and the parsed
      coordinates. */
  datatype CellStats = CellStats(cell: string, meanX: real, meanY: real, totalCount: nat,
                                 positiveCount: nat, hitRate: real, coordinates: seq<int>)

  /** The distinct cell strings in order of first appearance. */
  function DistinctCells(cells: seq<string>): (d: seq<string>)
    ensures forall i, j :: 0 <= i < j < |d| ==> d[i] != d[j]
    ensures forall c :: c in d <==> c in cells
  {
    if |cells| == 0 then []
    else
      var d := DistinctCells(cells[..|cells| - 1]);
      assert forall c :: c in cells <==> c in cells[..|cells| - 1] || c == cells[|cells| - 1];
      if cells[|cells| - 1] in d then d else d + [cells[|cells| - 1]]
  }

  /** The number of rows in cell `c` (`aggfunc=len`). */
  function Count(cells: seq<string>, c: string): (n: nat)
    ensures n <= |cells|
    ensures n > 0 <==> c in cells
  {
    if |cells| == 0 then 0
    else
      var n := Count(cells[..|cells| - 1], c);
      assert forall s :: s in cells <==> s in cells[..|cells| - 1] || s == cells[|cells| - 1];
      n + (if cells[|cells| - 1] == c then 1 else 0)
  }

  /** The number of rows in cell `c` whose label is true (`aggfunc=sum` over booleans). */
  function Positives(rows: seq<Row>, cells: seq<string>, c: string): (n: nat)
    requires |rows| == |cells|
    ensures n <= Count(cells, c)
  {
    if |cells| == 0 then 0
    else
      Positives(rows[..|rows| - 1], cells[..|cells| - 1], c) +
      (if cells[|cells| - 1] == c && rows[|rows| - 1].p then 1 else 0)
  }

  /** The x values of the rows in cell `c`, in row order. */
  function XsIn(rows: seq<Row>, cells: seq<string>, c: string): (s: seq<real>)
    requires |rows| == |cells|
    ensures |s| == Count(cells, c)
  {
    if |cells| == 0 then []
    else
      XsIn(rows[..|rows| - 1], cells[..|cells| - 1], c) +
      (if cells[|cells| - 1] == c then [rows[|rows| - 1].x] else [])
  }

  /** The y values of the rows in cell `c`, in row order. */
  function YsIn(rows: seq<Row>, cells: seq<string>, c: string): (s: seq<real>)
    requires |rows| == |cells|
    ensures |s| == Count(cells, c)
  {
    if |cells| == 0 then []
    else
      YsIn(rows[..|rows| - 1], cells[..|cells| - 1], c) +
      (if cells[|cells| - 1] == c then [rows[|rows| - 1].y] else [])
  }

  /** The grouped row of one observed cell (`np.average` of x and y, `len`, `sum`, their
      ratio, `_parse_tuple` of the index). */
  function Stats(rows: seq<Row>, cells: seq<string>, c: string, coordinates: seq<int>): CellStats
    requires |rows| == |cells| && c in cells
  {
    var n := Count(cells, c);
    CellStats(c, Quotient(Sum(XsIn(rows, cells, c)), n as real), Quotient(Sum(YsIn(rows, cells, c)), n as real),
              n, Positives(rows, cells, c), Quotient(Positives(rows, cells, c) as real, n as real), coordinates)
  }

  /** `_parse_tuple` of each index in turn; the first it rejects raises. */
  function ParseCells(d: seq<string>): (r: Result<seq<seq<int>>, ParseError>)
    ensures r.Ok? ==> |r.value| == |d|
  {
    Collect(seq(|d|, k requires 0 <= k < |d| => ParseTuple(d[k])))
  }

  /** The values of a sequence of results in order, or the first error among them. */
  function Collect<T>(rs: seq<Result<T, ParseError>>): (r: Result<seq<T>, ParseError>)
    ensures r.Ok? ==> |r.value| == |rs|
  {
    if |rs| == 0 then Ok([])
    else match rs[0]
      case Err(e) => Err(e)
      case Ok(t) =>
        match Collect(rs[1..])
        case Err(e) => Err(e)
        case Ok(rest) => Ok([t] + rest)
  }

  /** Collecting succeeds exactly when every result is a value, and then yields them. */
  lemma {:induction false} CollectSpec<T>(rs: seq<Result<T, ParseError>>)
    ensures Collect(rs).Ok? <==> forall k :: 0 <= k < |rs| ==> rs[k].Ok?
    ensures Collect(rs).Ok? ==> forall k :: 0 <= k < |rs| ==> rs[k] == Ok(Collect(rs).value[k])
  {
    if |rs| > 0 {
      CollectSpec(rs[1..]);
      assert forall k :: 1 <= k < |rs| ==> rs[1..][k - 1] == rs[k];
    }
  }

  /** `_group_dataframe`: one grouped row per distinct cell, in order of first appearance,
      with the coordinates parsed from the cell string. */
  function GroupDataframe(rows: seq<Row>, cells: seq<string>): (r: Result<seq<CellStats>, ParseError>)
    requires |rows| == |cells|
    ensures r.Ok? ==>
      |r.value| == |DistinctCells(cells)| &&
      forall k :: 0 <= k < |r.value| ==>
        r.value[k].cell == DistinctCells(cells)[k] && r.value[k].totalCount == Count(cells, r.value[k].cell) &&
        ParseTuple(r.value[k].cell) == Ok(r.value[k].coordinates)
  {
    ParseCellsSpec(DistinctCells(cells));
    var d := DistinctCells(cells);
    match ParseCells(d)
    case Err(e) => Err(e)
    case Ok(coords) => Ok(seq(|d|, k requires 0 <= k < |d| => Stats(rows, cells, d[k], coords[k])))
  }

  /** The parse succeeds exactly when every index parses, and then yields their tuples. */
  lemma ParseCellsSpec(d: seq<string>)
    ensures ParseCells(d).Ok? <==> forall k :: 0 <= k < |d| ==> ParseTuple(d[k]).Ok?
    ensures ParseCells(d).Ok? ==> forall k :: 0 <= k < |d| ==> ParseTuple(d[k]) == Ok(ParseCells(d).value[k])
  {
    var rs := seq(|d|, k requires 0 <= k < |d| => ParseTuple(d[k]));
    CollectSpec(rs);
    assert forall k :: 0 <= k < |d| ==> rs[k] == ParseTuple(d[k]);
  }

  /** The grouped frame of a column of well-formed cells parses without error, and row `k`
      is the statistics of the k-th distinct cell. */
  lemma GroupParses(rows: seq<Row>, cells: seq<string>, xdivs: int, ydivs: int)
    requires |rows| == |cells|
    requires forall i :: 0 <= i < |cells| ==> WellFormedCell(cells[i], xdivs, ydivs)
    ensures GroupDataframe(rows, cells).Ok?
    ensures var g := GroupDataframe(rows, cells).value;
      var d := DistinctCells(cells);
      |g| == |d| &&
      forall k :: 0 <= k < |d| ==>
        ParseTuple(d[k]).Ok? && g[k] == Stats(rows, cells, d[k], ParseTuple(d[k]).value)
  {
    var d := DistinctCells(cells);
    forall k | 0 <= k < |d| ensures ParseTuple(d[k]).Ok? {
      CellIsWellFormed(cells, d[k], xdivs, ydivs);
    }
    ParseCellsSpec(d);
  }

  lemma CellIsWellFormed(cells: seq<string>, c: string, xdivs: int, ydivs: int)
    requires forall i :: 0 <= i < |cells| ==> WellFormedCell(cells[i], xdivs, ydivs)
    requires c in cells
    ensures WellFormedCell(c, xdivs, ydivs)
  {
    var i :| 0 <= i < |cells| && cells[i] == c;
  }

  // ---------------------------------------------------------------------------------------
  // Properties of the grouped frame

  /** The occurrences of `s` in `d`. */
  function Occurrences(d: seq<string>, s: string): nat
  {
    if |d| == 0 then 0 else Occurrences(d[..|d| - 1], s) + (if d[|d| - 1] == s then 1 else 0)
  }

  /** Every row lies in exactly one cell of the grouping. */
  lemma EachRowInOneCell(cells: seq<string>, i: nat)
    requires i < |cells|
    ensures Occurrences(DistinctCells(cells), cells[i]) == 1
  {
    var d := DistinctCells(cells);
    assert cells[i] in d;
    DistinctOccursOnce(d, cells[i]);
  }

  lemma {:induction false} DistinctOccursOnce(d: seq<string>, s: string)
    requires forall i, j :: 0 <= i < j < |d| ==> d[i] != d[j]
    ensures Occurrences(d, s) == if s in d then 1 else 0
  {
    if |d| > 0 {
      var init := d[..|d| - 1];
      DistinctOccursOnce(init, s);
      assert forall c :: c in d <==> c in init || c == d[|d| - 1];
      if d[|d| - 1] == s {
        assert s !in init;
      }
    }
  }

  /** The row counts of the cells in `d`. */
  function SumCounts(cells: seq<string>, d: seq<string>): nat
  {
    if |d| == 0 then 0 else SumCounts(cells, d[..|d| - 1]) + Count(cells, d[|d| - 1])
  }

  /** Adding a row to cell `x` adds one to the count of every occurrence of `x` in `d`. */
  lemma {:induction false} SumCountsSnoc(cells: seq<string>, x: string, d: seq<string>)
    ensures SumCounts(cells + [x], d) == SumCounts(cells, d) + Occurrences(d, x)
  {
    var all := cells + [x];
    assert all[..|all| - 1] == cells;
    if |d| > 0 {
      SumCountsSnoc(cells, x, d[..|d| - 1]);
    }
  }

  lemma {:induction false} SumCountsAppend(cells: seq<string>, d: seq<string>, c: string)
    ensures SumCounts(cells, d + [c]) == SumCounts(cells, d) + Count(cells, c)
  {
    assert (d + [c])[..|d|] == d;
  }

  /** The row counts of the distinct cells add up to the number of rows. */
  lemma {:induction false} CountsCoverRows(cells: seq<string>)
    ensures SumCounts(cells, DistinctCells(cells)) == |cells|
  {
    if |cells| > 0 {
      var init, x := cells[..|cells| - 1], cells[|cells| - 1];
      assert cells == init + [x];
      CountsCoverRows(init);
      CoverStep(init, x, DistinctCells(init), DistinctCells(cells));
    }
  }

  /** One more row keeps the counts of the distinct cells adding up to the number of rows. */
  lemma CoverStep(init: seq<string>, x: string, d: seq<string>, e: seq<string>)
    requires SumCounts(init, d) == |init|
    requires forall c :: c in d <==> c in init
    requires e == if x in d then d else d + [x]
    requires forall i, j :: 0 <= i < j < |e| ==> e[i] != e[j]
    ensures SumCounts(init + [x], e) == |init| + 1
  {
    SumCountsSnoc(init, x, e);
    DistinctOccursOnce(e, x);
    if x !in d {
      SumCountsAppend(init, d, x);
      assert Count(init, x) == 0;
    }
  }

  /** The `total_count` column. */
  function TotalCounts(g: seq<CellStats>): nat
  {
    if |g| == 0 then 0 else TotalCounts(g[..|g| - 1]) + g[|g| - 1].totalCount
  }

  lemma {:induction false} TotalCountsAre(rows: seq<Row>, cells: seq<string>, g: seq<CellStats>, d: seq<string>)
    requires |rows| == |cells| && |g| == |d| && forall k :: 0 <= k < |d| ==> d[k] in cells
    requires forall k :: 0 <= k < |d| ==> g[k].totalCount == Count(cells, d[k])
    ensures TotalCounts(g) == SumCounts(cells, d)
  {
    if |g| > 0 {
      TotalCountsAre(rows, cells, g[..|g| - 1], d[..|d| - 1]);
    }
  }

  /** The `total_count` values of the grouped frame sum to the number of rows. */
  lemma TotalCountIsRowCount(rows: seq<Row>, cells: seq<string>, xdivs: int, ydivs: int)
    requires |rows| == |cells|
    requires forall i :: 0 <= i < |cells| ==> WellFormedCell(cells[i], xdivs, ydivs)
    ensures GroupDataframe(rows, cells).Ok?
    ensures TotalCounts(GroupDataframe(rows, cells).value) == |rows|
  {
    GroupParses(rows, cells, xdivs, ydivs);
    var d := DistinctCells(cells);
    TotalCountsAre(rows, cells, GroupDataframe(rows, cells).value, d);
    CountsCoverRows(cells);
  }

  /** The rows of cell `c` with a true label. */
  function PositiveRows(rows: seq<Row>, cells: seq<string>, c: string): set<nat>
    requires |rows| == |cells|
  {
    set i: nat | i < |rows| && cells[i] == c && rows[i].p
  }

  lemma {:induction false} PositivesAreLabelledRows(rows: seq<Row>, cells: seq<string>, c: string)
    requires |rows| == |cells|
    ensures Positives(rows, cells, c) == |PositiveRows(rows, cells, c)|
  {
    if |rows| > 0 {
      var n := |rows| - 1;
      var rs, cs := rows[..n], cells[..n];
      PositivesAreLabelledRows(rs, cs, c);
      PositiveRowsSnoc(rows, cells, c);
    }
  }

  lemma PositiveRowsSnoc(rows: seq<Row>, cells: seq<string>, c: string)
    requires |rows| == |cells| > 0
    ensures var n := |rows| - 1;
      PositiveRows(rows, cells, c) ==
        PositiveRows(rows[..n], cells[..n], c) + (if cells[n] == c && rows[n].p then {n} else {})
  {
    var n := |rows| - 1;
    forall i: nat | i < n ensures rows[i] == rows[..n][i] && cells[i] == cells[..n][i] { }
  }

  /** In every grouped row, `positive_count` is the number of its rows with a true label,
      `hit_rate` is `positive_count / total_count`, and the hit rate lies in [0, 1]. */
  lemma HitRateSpec(rows: seq<Row>, cells: seq<string>, c: string, coordinates: seq<int>)
    requires |rows| == |cells| && c in cells
    ensures var s := Stats(rows, cells, c, coordinates);
      s.totalCount > 0 &&
      s.positiveCount == |PositiveRows(rows, cells, c)| &&
      s.hitRate == Quotient(s.positiveCount as real, s.totalCount as real) &&
      0.0 <= s.hitRate <= 1.0
  {
    PositivesAreLabelledRows(rows, cells, c);
    Ratio(Positives(rows, cells, c), Count(cells, c));
  }

  /** A count over a positive count it bounds lies in [0, 1]. */
  lemma Ratio(p: nat, n: nat)
    requires p <= n && n > 0
    ensures 0.0 <= Quotient(p as real, n as real) <= 1.0
  {
    QuotientBetween(p as real, n as real, 0.0, 1.0);
  }

  /** Bounds on every element bound the sum. */
  lemma {:induction false} SumBetween(s: seq<real>, lo: real, hi: real)
    requires forall k :: 0 <= k < |s| ==> lo <= s[k] <= hi
    ensures |s| as real * lo <= Sum(s) <= |s| as real * hi
  {
    if |s| > 0 {
      SumBetween(s[..|s| - 1], lo, hi);
    }
  }

  /** The mean of a non-empty sequence lies between its least and greatest element. */
  lemma MeanBetween(s: seq<real>)
    requires |s| > 0
    ensures MinOf(s) <= Quotient(Sum(s), |s| as real) <= MaxOf(s)
  {
    MeanWithin(s, MinOf(s), MaxOf(s));
  }

  /** Bounds on every element bound the mean. */
  lemma MeanWithin(s: seq<real>, lo: real, hi: real)
    requires |s| > 0
    requires forall k :: 0 <= k < |s| ==> lo <= s[k] <= hi
    ensures lo <= Quotient(Sum(s), |s| as real) <= hi
  {
    SumBetween(s, lo, hi);
    QuotientBetween(Sum(s), |s| as real, lo, hi);
  }

  /** The per-cell x and y are the means of the cell's rows, so each lies between the least
      and greatest value of those rows. */
  lemma CellMeansBetween(rows: seq<Row>, cells: seq<string>, c: string, coordinates: seq<int>)
    requires |rows| == |cells| && c in cells
    ensures var s := Stats(rows, cells, c, coordinates);
      MinOf(XsIn(rows, cells, c)) <= s.meanX <= MaxOf(XsIn(rows, cells, c)) &&
      MinOf(YsIn(rows, cells, c)) <= s.meanY <= MaxOf(YsIn(rows, cells, c))
  {
    MeanBetween(XsIn(rows, cells, c));
    MeanBetween(YsIn(rows, cells, c));
  }

  // ---------------------------------------------------------------------------------------
  // _pandas_to_heatmap_matrix

  /** `max` of a non-empty series of ints. */
  function MaxInt(s: seq<int>): (m: int)
    requires |s| > 0
    ensures forall k :: 0 <= k < |s| ==> s[k] <= m
    ensures exists k :: 0 <= k < |s| && s[k] == m
  {
    if |s| == 1 then s[0]
    else
      var m := MaxInt(s[..|s| - 1]);
      assert forall k :: 0 <= k < |s| - 1 ==> s[..|s| - 1][k] == s[k];
      if s[|s| - 1] > m then s[|s| - 1] else m
  }

  /** Coordinates the matrix can be indexed with: pairs of non-negative ints. */
  predicate ValidCoordinates(coords: seq<seq<int>>)
  {
    forall k :: 0 <= k < |coords| ==> |coords[k]| == 2 && coords[k][0] >= 0 && coords[k][1] >= 0
  }

  function Firsts(coords: seq<seq<int>>): (s: seq<int>)
    requires ValidCoordinates(coords)
    ensures |s| == |coords|
  {
    seq(|coords|, k requires 0 <= k < |coords| => coords[k][0])
  }

  function Seconds(coords: seq<seq<int>>): (s: seq<int>)
    requires ValidCoordinates(coords)
    ensures |s| == |coords|
  {
    seq(|coords|, k requires 0 <= k < |coords| => coords[k][1])
  }

  /** The entry the fill loop leaves at `(x, y)`: the value of the last row with those
      coordinates, or the initial 0 when no row has them. */
  function HeatEntry(coords: seq<seq<int>>, zs: seq<real>, x: int, y: int): real
    requires |coords| == |zs|
  {
    if |coords| == 0 then 0.0
    else if coords[|coords| - 1] == [x, y] then zs[|zs| - 1]
    else HeatEntry(coords[..|coords| - 1], zs[..|zs| - 1], x, y)
  }

  /** A matrix of shape `(max x + 1, max y + 1)` holding at each position the value
      HeatEntry gives it. */
  predicate IsHeatMatrix(coords: seq<seq<int>>, zs: seq<real>, m: array2<real>)
    requires |coords| == |zs| > 0 && ValidCoordinates(coords)
    reads m
  {
    m.Length0 == MaxInt(Firsts(coords)) + 1 && m.Length1 == MaxInt(Seconds(coords)) + 1 &&
    forall x, y :: 0 <= x < m.Length0 && 0 <= y < m.Length1 ==> m[x, y] == HeatEntry(coords, zs, x, y)
  }

  /** `_pandas_to_heatmap_matrix(df, coords_col, z_col)`: a zero matrix of shape
      `(max x + 1, max y + 1)` in which each row of the frame writes its z value at its
      coordinates. */
  method HeatmapMatrix(coords: seq<seq<int>>, zs: seq<real>) returns (matrix: array2<real>)
    requires |coords| == |zs| > 0 && ValidCoordinates(coords)
    ensures fresh(matrix)
    ensures IsHeatMatrix(coords, zs, matrix)
  {
    var xs, ys := Firsts(coords), Seconds(coords);
    assert xs[0] >= 0 && ys[0] >= 0;
    matrix := new real[MaxInt(xs) + 1, MaxInt(ys) + 1]((_, _) => 0.0);
    for k := 0 to |coords|
      invariant forall x, y :: 0 <= x < matrix.Length0 && 0 <= y < matrix.Length1 ==>
        matrix[x, y] == HeatEntry(coords[..k], zs[..k], x, y)
    {
      var x, y := coords[k][0], coords[k][1];
      assert xs[k] == x && ys[k] == y;
      matrix[x, y] := zs[k];
      HeatEntrySnoc(coords, zs, k);
    }
    assert coords[..|coords|] == coords && zs[..|zs|] == zs;
  }

  /** One more row overwrites its own position and no other. */
  lemma HeatEntrySnoc(coords: seq<seq<int>>, zs: seq<real>, k: nat)
    requires |coords| == |zs| && k < |coords| && |coords[k]| == 2
    ensures forall x, y ::
      HeatEntry(coords[..k + 1], zs[..k + 1], x, y) ==
      (if x == coords[k][0] && y == coords[k][1] then zs[k] else HeatEntry(coords[..k], zs[..k], x, y))
  {
    var c, z := coords[..k + 1], zs[..k + 1];
    assert c[k] == coords[k] && z[k] == zs[k];
    assert c[..k] == coords[..k] && z[..k] == zs[..k];
    assert coords[k] == [coords[k][0], coords[k][1]];
    forall x, y ensures HeatEntry(c, z, x, y) ==
      (if x == coords[k][0] && y == coords[k][1] then zs[k] else HeatEntry(coords[..k], zs[..k], x, y))
    {
      assert c[k] == [x, y] <==> x == coords[k][0] && y == coords[k][1];
    }
  }

  /** With pairwise distinct coordinates, each row's value is what its position holds, and
      every position no row names holds 0 — the same value a cell with a zero hit rate
      gets. */
  lemma {:induction false} HeatEntryDistinct(coords: seq<seq<int>>, zs: seq<real>, x: int, y: int)
    requires |coords| == |zs|
    requires forall i, j :: 0 <= i < j < |coords| ==> coords[i] != coords[j]
    ensures forall k :: 0 <= k < |coords| && coords[k] == [x, y] ==> HeatEntry(coords, zs, x, y) == zs[k]
    ensures (forall k :: 0 <= k < |coords| ==> coords[k] != [x, y]) ==> HeatEntry(coords, zs, x, y) == 0.0
  {
    if |coords| > 0 {
      var n := |coords| - 1;
      HeatEntryDistinct(coords[..n], zs[..n], x, y);
      assert forall k :: 0 <= k < n ==> coords[..n][k] == coords[k] && zs[..n][k] == zs[k];
    }
  }

  /** The coordinates and hit rates of a grouped frame. */
  function Coordinates(g: seq<CellStats>): (s: seq<seq<int>>)
    ensures |s| == |g|
  {
    seq(|g|, k requires 0 <= k < |g| => g[k].coordinates)
  }

  function HitRates(g: seq<CellStats>): (s: seq<real>)
    ensures |s| == |g|
  {
    seq(|g|, k requires 0 <= k < |g| => g[k].hitRate)
  }

  /** The grouped frame of a binned, non-empty column has distinct, in-range coordinates:
      distinct cells have distinct strings, and each string is the representation of its
      coordinates. */
  lemma GroupedCoordinates(rows: seq<Row>, cells: seq<string>, xdivs: int, ydivs: int)
    requires |rows| == |cells| > 0
    requires forall i :: 0 <= i < |cells| ==> WellFormedCell(cells[i], xdivs, ydivs)
    ensures GroupDataframe(rows, cells).Ok?
    ensures var coords := Coordinates(GroupDataframe(rows, cells).value);
      |coords| > 0 && ValidCoordinates(coords) &&
      (forall k :: 0 <= k < |coords| ==> coords[k][0] < xdivs && coords[k][1] < ydivs) &&
      forall i, j :: 0 <= i < j < |coords| ==> coords[i] != coords[j]
  {
    GroupParses(rows, cells, xdivs, ydivs);
    var g := GroupDataframe(rows, cells).value;
    var d := DistinctCells(cells);
    var coords := Coordinates(g);
    assert cells[0] in d;
    forall k | 0 <= k < |coords|
      ensures |coords[k]| == 2 && TupleRepr(coords[k]) == d[k]
      ensures 0 <= coords[k][0] < xdivs && 0 <= coords[k][1] < ydivs
    {
      GroupedCoordinate(rows, cells, xdivs, ydivs, k);
    }
    forall i, j | 0 <= i < j < |coords| ensures coords[i] != coords[j] {
      assert d[i] != d[j];
    }
  }

  /** Row `k` of the grouped frame carries the two in-range indices whose representation
      is its cell string. */
  lemma GroupedCoordinate(rows: seq<Row>, cells: seq<string>, xdivs: int, ydivs: int, k: nat)
    requires |rows| == |cells|
    requires forall i :: 0 <= i < |cells| ==> WellFormedCell(cells[i], xdivs, ydivs)
    requires k < |DistinctCells(cells)|
    ensures GroupDataframe(rows, cells).Ok? && k < |GroupDataframe(rows, cells).value|
    ensures var c := GroupDataframe(rows, cells).value[k].coordinates;
      |c| == 2 && TupleRepr(c) == DistinctCells(cells)[k] && 0 <= c[0] < xdivs && 0 <= c[1] < ydivs
  {
    GroupParses(rows, cells, xdivs, ydivs);
    var d := DistinctCells(cells);
    CellIsWellFormed(cells, d[k], xdivs, ydivs);
  }

  // ---------------------------------------------------------------------------------------
  // PandasHeatMapPlot

  /** `PandasHeatMapPlot`: the divisions, the grouped frame, the heat matrix and the
      extremes of each column, all set once by the constructor. */
  class HeatMapPlot {
    const xdivs: int
    const ydivs: int
    const groupedDf: seq<CellStats>
    const heatMatrix: array2<real>
    const minX: real
    const maxX: real
    const minY: real
    const maxY: real

    /** `__init__(df, xdivs, ydivs, ...)`. Every observed cell's hit rate sits at its
        coordinates in the matrix; every other entry is 0. */
    constructor (rows: seq<Row>, xdivs: int, ydivs: int)
      requires Binnable(rows, xdivs, ydivs)
      ensures this.xdivs == xdivs && this.ydivs == ydivs
      ensures DataToGridSpec(rows, xdivs, ydivs) == Ok(groupedDf)
      ensures fresh(heatMatrix)
      ensures |groupedDf| > 0 && ValidCoordinates(Coordinates(groupedDf))
      ensures IsHeatMatrix(Coordinates(groupedDf), HitRates(groupedDf), heatMatrix)
      ensures minX == MinOf(Xs(rows)) && maxX == MaxOf(Xs(rows))
      ensures minY == MinOf(Ys(rows)) && maxY == MaxOf(Ys(rows))
    {
      var grouped := DataToGrid(rows, xdivs, ydivs);
      BinnedCoordinates(rows, xdivs, ydivs);
      var matrix := HeatmapMatrix(Coordinates(grouped), HitRates(grouped));
      this.xdivs := xdivs;
      this.ydivs := ydivs;
      groupedDf := grouped;
      heatMatrix := matrix;
      minX, maxX := MinOf(Xs(rows)), MaxOf(Xs(rows));
      minY, maxY := MinOf(Ys(rows)), MaxOf(Ys(rows));
    }
  }

  /** The grouped frame of a binnable frame is non-empty with distinct, in-range
      coordinates, so each observed cell's hit rate is the matrix entry at its
      coordinates. */
  lemma BinnedCoordinates(rows: seq<Row>, xdivs: int, ydivs: int)
    requires Binnable(rows, xdivs, ydivs)
    ensures DataToGridSpec(rows, xdivs, ydivs).Ok?
    ensures var coords := Coordinates(DataToGridSpec(rows, xdivs, ydivs).value);
      |coords| > 0 && ValidCoordinates(coords) &&
      (forall k :: 0 <= k < |coords| ==> coords[k][0] < xdivs && coords[k][1] < ydivs) &&
      forall i, j :: 0 <= i < j < |coords| ==> coords[i] != coords[j]
  {
    CellColumnOk(rows, xdivs, ydivs, |rows|);
    assert rows[..|rows|] == rows;
    CellStringsWellFormed(rows, xdivs, ydivs);
    GroupedCoordinates(rows, CellStrings(rows, xdivs, ydivs, |rows|), xdivs, ydivs);
  }
}
