/**
 * The lattice `generate_vertices` lays out: for every x of
 * `range(x_lo, x_hi, SQUARE_SIZE)` and, inside, every y of
 * `range(y_lo, y_hi, SQUARE_SIZE)`, the point (x, y), in that x-major order.
 */
module Lattice {
  import opened Vertices

  /** `SQUARE_SIZE`, the spacing of the lattice. */
  const SquareSize: nat := 20

  /**
   * The range bounds for the 800 x 600 window: `int(800 * 0.1)`,
   * `int(800 * 0.9 + SQUARE_SIZE)`, `int(600 * 0.1)` and
   * `int(600 * 0.9 + SQUARE_SIZE)`, each of which the float arithmetic
   * computes exactly.
   */
  const XLow := 80
  const XHigh := 740
  const YLow := 60
  const YHigh := 560

  /** 33 columns of 25 points. */
  const Columns := 33
  const Rows := 25
  const GridSize := 825

  /** `list(range(lo, hi, SQUARE_SIZE))`. */
  function Range(lo: int, hi: int): seq<int>
    decreases hi - lo
  {
    if lo >= hi then [] else [lo] + Range(lo + SquareSize, hi)
  }

  /** The k-th element is `lo + k * SQUARE_SIZE`, and the range stops at the first such value not below `hi`. */
  lemma {:induction false} RangeShape(lo: int, hi: int)
    ensures forall k :: 0 <= k < |Range(lo, hi)| ==> Range(lo, hi)[k] == lo + k * SquareSize
    ensures lo < hi ==> lo + (|Range(lo, hi)| - 1) * SquareSize < hi <= lo + |Range(lo, hi)| * SquareSize
    ensures lo >= hi ==> Range(lo, hi) == []
    decreases hi - lo
  {
    if lo < hi {
      RangeShape(lo + SquareSize, hi);
      var r, r' := Range(lo, hi), Range(lo + SquareSize, hi);
      forall k | 0 <= k < |r| ensures r[k] == lo + k * SquareSize {
        if k > 0 {
          assert r[k] == r'[k - 1];
        }
      }
    }
  }

  /** A value is in the range exactly when it lies in `[lo, hi)` on the step from `lo`. */
  lemma {:induction false} RangeMember(lo: int, hi: int, v: int)
    ensures v in Range(lo, hi) <==> lo <= v < hi && (v - lo) % SquareSize == 0
    decreases hi - lo
  {
    if lo < hi {
      RangeMember(lo + SquareSize, hi, v);
    }
  }

  /** The range is strictly increasing, hence free of repetitions. */
  lemma RangeIncreasing(lo: int, hi: int)
    ensures forall i, j :: 0 <= i < j < |Range(lo, hi)| ==> Range(lo, hi)[i] < Range(lo, hi)[j]
  {
    RangeShape(lo, hi);
  }

  /** The inner loop: the column of points at abscissa `x`. */
  function Column(x: int, ys: seq<int>): (c: seq<Point>)
    ensures |c| == |ys| && forall j :: 0 <= j < |ys| ==> c[j] == (x, ys[j])
  {
    seq(|ys|, j requires 0 <= j < |ys| => (x, ys[j]))
  }

  /** Both loops: one column per x, in order. */
  function Points(xs: seq<int>, ys: seq<int>): (r: seq<Point>)
    ensures |r| == |xs| * |ys|
  {
    if xs == [] then []
    else
      assert |xs| * |ys| == |ys| + (|xs| - 1) * |ys|;
      Column(xs[0], ys) + Points(xs[1..], ys)
  }

  lemma MulSucc(i: nat, m: nat)
    ensures (i + 1) * m == i * m + m
  {
  }

  lemma {:induction false} MulMonotone(i: nat, k: nat, m: nat)
    requires i <= k
    ensures i * m <= k * m
    decreases k - i
  {
    if i < k {
      MulMonotone(i + 1, k, m);
      MulSucc(i, m);
    }
  }

  /** Point number `i * |ys| + j` is `(xs[i], ys[j])`: x-major order. */
  lemma {:induction false} PointsAt(xs: seq<int>, ys: seq<int>, i: nat, j: nat)
    requires i < |xs| && j < |ys|
    ensures i * |ys| + j < |Points(xs, ys)| == |xs| * |ys|
    ensures Points(xs, ys)[i * |ys| + j] == (xs[i], ys[j])
  {
    var m := |ys|;
    MulSucc(i, m);
    MulMonotone(i + 1, |xs|, m);
    if i > 0 {
      PointsAt(xs[1..], ys, i - 1, j);
      MulSucc(i - 1, m);
      var k := i * m + j;
      assert k == m + ((i - 1) * m + j);
      assert Points(xs, ys) == Column(xs[0], ys) + Points(xs[1..], ys);
    }
  }

  /** Exactly the pairs of an x of `xs` and a y of `ys` occur. */
  lemma {:induction false} PointsMember(xs: seq<int>, ys: seq<int>, p: Point)
    ensures p in Points(xs, ys) <==> p.0 in xs && p.1 in ys
  {
    if xs != [] {
      PointsMember(xs[1..], ys, p);
      assert p in Column(xs[0], ys) <==> p.0 == xs[0] && p.1 in ys by {
        if p.0 == xs[0] && p.1 in ys {
          var j :| 0 <= j < |ys| && ys[j] == p.1;
          assert Column(xs[0], ys)[j] == p;
        }
      }
      assert xs == [xs[0]] + xs[1..];
    }
  }

  predicate Distinct<T(==)>(s: seq<T>) {
    forall i, j :: 0 <= i < |s| && 0 <= j < |s| && i != j ==> s[i] != s[j]
  }

  /** Repetition-free abscissae and ordinates give repetition-free points. */
  lemma {:induction false} PointsDistinct(xs: seq<int>, ys: seq<int>)
    requires Distinct(xs) && Distinct(ys)
    ensures Distinct(Points(xs, ys))
  {
    if xs != [] {
      PointsDistinct(xs[1..], ys);
      var c, rest := Column(xs[0], ys), Points(xs[1..], ys);
      forall i, j | 0 <= i < |c + rest| && 0 <= j < |c + rest| && i != j
        ensures (c + rest)[i] != (c + rest)[j]
      {
        if i < |c| && j >= |c| {
          PointsMember(xs[1..], ys, rest[j - |c|]);
        } else if j < |c| && i >= |c| {
          PointsMember(xs[1..], ys, rest[i - |c|]);
        }
      }
    }
  }

  /** What `generate_vertices` lays out for the bounds `[xLo, xHi)` and `[yLo, yHi)`. */
  function Grid(xLo: int, xHi: int, yLo: int, yHi: int): seq<Point> {
    Points(Range(xLo, xHi), Range(yLo, yHi))
  }

  /** Lattice points never repeat. */
  lemma GridDistinct(xLo: int, xHi: int, yLo: int, yHi: int)
    ensures Distinct(Grid(xLo, xHi, yLo, yHi))
  {
    RangeIncreasing(xLo, xHi);
    RangeIncreasing(yLo, yHi);
    PointsDistinct(Range(xLo, xHi), Range(yLo, yHi));
  }

  /** The points of the 800 x 600 window. */
  function ScreenPoints(): seq<Point> {
    Grid(XLow, XHigh, YLow, YHigh)
  }

  lemma ScreenRanges()
    ensures |Range(XLow, XHigh)| == Columns && |Range(YLow, YHigh)| == Rows
    ensures forall i :: 0 <= i < Columns ==> Range(XLow, XHigh)[i] == XLow + i * SquareSize
    ensures forall j :: 0 <= j < Rows ==> Range(YLow, YHigh)[j] == YLow + j * SquareSize
  {
    RangeShape(XLow, XHigh);
    RangeShape(YLow, YHigh);
  }

  /** `generate_vertices(W, H)` lays out 825 points, none of them twice. */
  lemma ScreenSize()
    ensures |ScreenPoints()| == GridSize == Columns * Rows
    ensures Distinct(ScreenPoints())
  {
    ScreenRanges();
    GridDistinct(XLow, XHigh, YLow, YHigh);
  }

  /** Point `i * 25 + j` is `(80 + 20 i, 60 + 20 j)`: x outer, y inner. */
  lemma ScreenOrder(i: nat, j: nat)
    requires i < Columns && j < Rows
    ensures i * Rows + j < |ScreenPoints()|
    ensures ScreenPoints()[i * Rows + j] == (XLow + i * SquareSize, YLow + j * SquareSize)
  {
    ScreenRanges();
    PointsAt(Range(XLow, XHigh), Range(YLow, YHigh), i, j);
  }

  /** A point occurs exactly when it lies in the half-open bounds on the 20-step. */
  lemma ScreenMember(p: Point)
    ensures p in ScreenPoints() <==>
              XLow <= p.0 < XHigh && (p.0 - XLow) % SquareSize == 0 &&
              YLow <= p.1 < YHigh && (p.1 - YLow) % SquareSize == 0
  {
    PointsMember(Range(XLow, XHigh), Range(YLow, YHigh), p);
    RangeMember(XLow, XHigh, p.0);
    RangeMember(YLow, YHigh, p.1);
  }
}
