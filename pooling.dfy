/**
 * The hand-written 2-D pooling kernel `pool2d`: every output cell is the
 * maximum or the mean of the pool-sized window whose top-left corner it is.
 */
module Pooling {

  import opened Tensors

  function Sum(s: seq<real>): real {
    if s == [] then 0.0 else s[0] + Sum(s[1..])
  }

  /** The largest element: an upper bound of `s` that occurs in `s`. */
  function Max(s: seq<real>): (r: real)
    requires |s| > 0
    ensures forall k :: 0 <= k < |s| ==> s[k] <= r
    ensures r in s
  {
    if |s| == 1 then s[0]
    else
      var t := Max(s[1..]);
      if s[0] >= t then s[0] else t
  }

  /** The smallest element: a lower bound of `s` that occurs in `s`. */
  function Min(s: seq<real>): (r: real)
    requires |s| > 0
    ensures forall k :: 0 <= k < |s| ==> r <= s[k]
    ensures r in s
  {
    if |s| == 1 then s[0]
    else
      var t := Min(s[1..]);
      if s[0] <= t then s[0] else t
  }

  /** The window of `m` of `ph` rows and `pw` columns whose top-left corner is (i, j). */
  predicate FitsWindow(m: Matrix, cols: nat, i: nat, j: nat, ph: nat, pw: nat) {
    IsMatrix(m, |m|, cols) && i + ph <= |m| && j + pw <= cols
  }

  function Window(m: Matrix, cols: nat, i: nat, j: nat, ph: nat, pw: nat): (w: seq<seq<real>>)
    requires FitsWindow(m, cols, i, j, ph, pw)
    ensures IsMatrix(w, ph, pw)
  {
    seq(ph, a requires 0 <= a < ph => m[i + a][j .. j + pw])
  }

  /** One output cell: the window's max in "max" mode, its mean in "avg" mode, 0 otherwise. */
  function PoolCell(m: Matrix, cols: nat, i: nat, j: nat, ph: nat, pw: nat, mode: string): real
    requires 1 <= ph && 1 <= pw && FitsWindow(m, cols, i, j, ph, pw)
  {
    if mode == "max" then Max(Concat(Window(m, cols, i, j, ph, pw)))
    else if mode == "avg" then Sum(Concat(Window(m, cols, i, j, ph, pw))) / (ph * pw) as real
    else 0.0
  }

  /** Whether a (ph, pw) pool applies to a matrix of `|m|` rows and `cols` columns. */
  predicate PoolFits(m: Matrix, cols: nat, ph: nat, pw: nat) {
    IsMatrix(m, |m|, cols) && 1 <= ph <= |m| + 1 && 1 <= pw <= cols + 1
  }

  /** The matrix `pool2d` returns. */
  function Pool(m: Matrix, cols: nat, ph: nat, pw: nat, mode: string): (y: Matrix)
    requires PoolFits(m, cols, ph, pw)
    ensures IsMatrix(y, |m| - ph + 1, cols - pw + 1)
  {
    seq(|m| - ph + 1, i requires 0 <= i < |m| - ph + 1 =>
      seq(cols - pw + 1, j requires 0 <= j < cols - pw + 1 => PoolCell(m, cols, i, j, ph, pw, mode)))
  }

  /**
   * pool2d: allocates a zero array of shape (rows - ph + 1, cols - pw + 1)
   * and fills it cell by cell; a mode other than "max" and "avg" writes nothing.
   */
  method Pool2d(X: array2<real>, ph: nat, pw: nat, mode: string) returns (Y: array2<real>)
    requires 1 <= ph <= X.Length0 + 1 && 1 <= pw <= X.Length1 + 1
    ensures fresh(Y)
    ensures Y.Length0 == X.Length0 - ph + 1 && Y.Length1 == X.Length1 - pw + 1
    ensures Cells(Y) == Pool(Cells(X), X.Length1, ph, pw, mode)
  {
    Y := new real[X.Length0 - ph + 1, X.Length1 - pw + 1]((_, _) => 0.0);
    var m := Cells(X);
    var i := 0;
    while i < Y.Length0
      invariant 0 <= i <= Y.Length0
      invariant forall r, c :: 0 <= r < i && 0 <= c < Y.Length1 ==>
        Y[r, c] == PoolCell(m, X.Length1, r, c, ph, pw, mode)
      invariant forall r, c :: i <= r < Y.Length0 && 0 <= c < Y.Length1 ==> Y[r, c] == 0.0
    {
      var j := 0;
      while j < Y.Length1
        invariant 0 <= j <= Y.Length1
        invariant forall r, c :: 0 <= r < i && 0 <= c < Y.Length1 ==>
          Y[r, c] == PoolCell(m, X.Length1, r, c, ph, pw, mode)
        invariant forall c :: 0 <= c < j ==> Y[i, c] == PoolCell(m, X.Length1, i, c, ph, pw, mode)
        invariant forall r, c :: i <= r < Y.Length0 && 0 <= c < Y.Length1 && (r > i || c >= j) ==>
          Y[r, c] == 0.0
      {
        if mode == "max" {
          Y[i, j] := Max(Concat(Window(m, X.Length1, i, j, ph, pw)));
        } else if mode == "avg" {
          Y[i, j] := Sum(Concat(Window(m, X.Length1, i, j, ph, pw))) / (ph * pw) as real;
        }
        j := j + 1;
      }
      i := i + 1;
    }
    ghost var want := Pool(m, X.Length1, ph, pw, mode);
    assert forall r :: 0 <= r < Y.Length0 ==> Cells(Y)[r] == want[r];
  }

  // ---------------------------------------------------------------------
  // Properties of the pooled matrix
  // ---------------------------------------------------------------------

  /** Max mode: each output cell bounds its whole window from above and is one of its elements. */
  lemma MaxPoolIsWindowMaximum(m: Matrix, cols: nat, ph: nat, pw: nat, i: nat, j: nat)
    requires PoolFits(m, cols, ph, pw) && i < |m| - ph + 1 && j < cols - pw + 1
    ensures forall r, c :: i <= r < i + ph && j <= c < j + pw ==> m[r][c] <= Pool(m, cols, ph, pw, "max")[i][j]
    ensures exists r, c :: i <= r < i + ph && j <= c < j + pw && m[r][c] == Pool(m, cols, ph, pw, "max")[i][j]
  {
    var w := Window(m, cols, i, j, ph, pw);
    var y := Pool(m, cols, ph, pw, "max")[i][j];
    assert y == Max(Concat(w));
    forall r, c | i <= r < i + ph && j <= c < j + pw
      ensures m[r][c] <= y
    {
      ConcatHas(w, r - i, c - j);
      assert w[r - i][c - j] == m[r][c];
    }
    ConcatFrom(w, y);
    var a, b :| 0 <= a < |w| && 0 <= b < |w[a]| && w[a][b] == y;
    assert m[i + a][j + b] == y;
  }

  lemma {:induction false} SumAtMost(s: seq<real>, hi: real)
    requires forall k :: 0 <= k < |s| ==> s[k] <= hi
    ensures Sum(s) <= |s| as real * hi
  {
    if s != [] {
      SumAtMost(s[1..], hi);
      assert |s| as real * hi == hi + (|s| - 1) as real * hi;
    }
  }

  lemma {:induction false} SumAtLeast(s: seq<real>, lo: real)
    requires forall k :: 0 <= k < |s| ==> lo <= s[k]
    ensures |s| as real * lo <= Sum(s)
  {
    if s != [] {
      SumAtLeast(s[1..], lo);
      assert |s| as real * lo == lo + (|s| - 1) as real * lo;
    }
  }

  /** The mean of a non-empty sequence lies between its minimum and its maximum. */
  lemma MeanBetween(w: seq<real>)
    requires |w| > 0
    ensures Min(w) <= Sum(w) / |w| as real <= Max(w)
  {
    MeanWithin(w, Min(w), Max(w));
  }

  lemma MeanWithin(w: seq<real>, lo: real, hi: real)
    requires |w| > 0
    requires forall k :: 0 <= k < |w| ==> lo <= w[k] <= hi
    ensures lo <= Sum(w) / |w| as real <= hi
  {
    SumAtMost(w, hi);
    SumAtLeast(w, lo);
    DivBounds(Sum(w), |w| as real, lo, hi);
  }

  lemma DivBounds(sum: real, n: real, lo: real, hi: real)
    requires n > 0.0 && n * lo <= sum <= n * hi
    ensures lo <= sum / n <= hi
  {
    var avg := sum / n;
    assert avg * n == sum;
  }

  /**
   * Avg mode: each output cell is the arithmetic mean of its window's
   * ph * pw elements, so it lies between the window's minimum and maximum.
   */
  lemma AvgPoolIsWindowMean(m: Matrix, cols: nat, ph: nat, pw: nat, i: nat, j: nat)
    requires PoolFits(m, cols, ph, pw) && i < |m| - ph + 1 && j < cols - pw + 1
    ensures var w := Concat(Window(m, cols, i, j, ph, pw));
      && |w| == ph * pw
      && Pool(m, cols, ph, pw, "avg")[i][j] == Sum(w) / |w| as real
      && Min(w) <= Pool(m, cols, ph, pw, "avg")[i][j] <= Max(w)
  {
    var win := Window(m, cols, i, j, ph, pw);
    var w := Concat(win);
    ConcatLength(win, pw);
    assert Pool(m, cols, ph, pw, "avg")[i][j] == Sum(w) / |w| as real;
    MeanBetween(w);
  }

  /** Any mode other than "max" and "avg" leaves the zero-filled output untouched. */
  lemma UnknownModeIsZero(m: Matrix, cols: nat, ph: nat, pw: nat, mode: string)
    requires PoolFits(m, cols, ph, pw) && mode != "max" && mode != "avg"
    ensures forall i, j :: 0 <= i < |m| - ph + 1 && 0 <= j < cols - pw + 1 ==> Pool(m, cols, ph, pw, mode)[i][j] == 0.0
  {
  }

  /** An output cell depends on its own window only. */
  lemma PoolCellIsLocal(m1: Matrix, m2: Matrix, cols: nat, ph: nat, pw: nat, mode: string, i: nat, j: nat)
    requires PoolFits(m1, cols, ph, pw) && PoolFits(m2, cols, ph, pw) && |m1| == |m2|
    requires i < |m1| - ph + 1 && j < cols - pw + 1
    requires forall r, c :: i <= r < i + ph && j <= c < j + pw ==> m1[r][c] == m2[r][c]
    ensures Pool(m1, cols, ph, pw, mode)[i][j] == Pool(m2, cols, ph, pw, mode)[i][j]
  {
    var w1 := Window(m1, cols, i, j, ph, pw);
    var w2 := Window(m2, cols, i, j, ph, pw);
    forall a | 0 <= a < ph ensures w1[a] == w2[a] {
      forall b | 0 <= b < pw ensures w1[a][b] == w2[a][b] {
        assert m1[i + a][j + b] == m2[i + a][j + b];
      }
    }
    assert w1 == w2;
  }

  /** The 3 x 3 input 0..8 of the worked example. */
  const Example: Matrix := [[0.0, 1.0, 2.0], [3.0, 4.0, 5.0], [6.0, 7.0, 8.0]]

  /** A (2, 2) window holds the four cells below and to the right of its corner. */
  lemma Window2x2(m: Matrix, cols: nat, i: nat, j: nat)
    requires FitsWindow(m, cols, i, j, 2, 2)
    ensures Concat(Window(m, cols, i, j, 2, 2)) == [m[i][j], m[i][j + 1], m[i + 1][j], m[i + 1][j + 1]]
  {
    var w := Window(m, cols, i, j, 2, 2);
    assert w[0] == [m[i][j], m[i][j + 1]];
    assert w[1] == [m[i + 1][j], m[i + 1][j + 1]];
    assert Concat(w) == w[0] + (w[1] + Concat(w[2..]));
  }

  /** A (2, 2) max-pool cell whose bottom-right cell is the largest of its window. */
  lemma MaxPool2x2(m: Matrix, cols: nat, i: nat, j: nat)
    requires PoolFits(m, cols, 2, 2) && i < |m| - 1 && j < cols - 1
    requires m[i][j] <= m[i + 1][j + 1] && m[i][j + 1] <= m[i + 1][j + 1] && m[i + 1][j] <= m[i + 1][j + 1]
    ensures Pool(m, cols, 2, 2, "max")[i][j] == m[i + 1][j + 1]
  {
    Window2x2(m, cols, i, j);
    var w := [m[i][j], m[i][j + 1], m[i + 1][j], m[i + 1][j + 1]];
    assert Max(w) >= w[3];
  }

  /** A (2, 2) avg-pool cell is the mean of the four cells of its window. */
  lemma AvgPool2x2(m: Matrix, cols: nat, i: nat, j: nat)
    requires PoolFits(m, cols, 2, 2) && i < |m| - 1 && j < cols - 1
    ensures Pool(m, cols, 2, 2, "avg")[i][j] == (m[i][j] + m[i][j + 1] + m[i + 1][j] + m[i + 1][j + 1]) / 4.0
  {
    Window2x2(m, cols, i, j);
    var w := [m[i][j], m[i][j + 1], m[i + 1][j], m[i + 1][j + 1]];
    assert Sum(w) == w[0] + Sum(w[1..]);
    assert Sum(w[1..]) == w[1] + Sum(w[2..]);
    assert Sum(w[2..]) == w[2] + Sum(w[3..]);
    assert Sum(w[3..]) == w[3] + Sum(w[4..]);
  }

  lemma MatrixIs2x2(p: Matrix, a: real, b: real, c: real, d: real)
    requires IsMatrix(p, 2, 2)
    requires p[0][0] == a && p[0][1] == b && p[1][0] == c && p[1][1] == d
    ensures p == [[a, b], [c, d]]
  {
    assert p[0] == [a, b];
    assert p[1] == [c, d];
  }

  /** The worked example, max mode: a (2, 2) pool of 0..8 gives [[4, 5], [7, 8]]. */
  lemma WorkedExampleMax()
    ensures Pool(Example, 3, 2, 2, "max") == [[4.0, 5.0], [7.0, 8.0]]
  {
    var p := Pool(Example, 3, 2, 2, "max");
    ExampleMaxCells(p);
    MatrixIs2x2(p, 4.0, 5.0, 7.0, 8.0);
  }

  lemma ExampleMaxCells(p: Matrix)
    requires p == Pool(Example, 3, 2, 2, "max")
    ensures p[0][0] == 4.0 && p[0][1] == 5.0 && p[1][0] == 7.0 && p[1][1] == 8.0
  {
    ExampleMaxCell00();
    ExampleMaxCell01();
    ExampleMaxCell10();
    ExampleMaxCell11();
  }

  lemma ExampleMaxCell00()
    ensures Pool(Example, 3, 2, 2, "max")[0][0] == 4.0
  {
    MaxPool2x2(Example, 3, 0, 0);
  }

  lemma ExampleMaxCell01()
    ensures Pool(Example, 3, 2, 2, "max")[0][1] == 5.0
  {
    MaxPool2x2(Example, 3, 0, 1);
  }

  lemma ExampleMaxCell10()
    ensures Pool(Example, 3, 2, 2, "max")[1][0] == 7.0
  {
    MaxPool2x2(Example, 3, 1, 0);
  }

  lemma ExampleMaxCell11()
    ensures Pool(Example, 3, 2, 2, "max")[1][1] == 8.0
  {
    MaxPool2x2(Example, 3, 1, 1);
  }

  /** The worked example, avg mode: a (2, 2) pool of 0..8 gives [[2, 3], [5, 6]]. */
  lemma WorkedExampleAvg()
    ensures Pool(Example, 3, 2, 2, "avg") == [[2.0, 3.0], [5.0, 6.0]]
  {
    var p := Pool(Example, 3, 2, 2, "avg");
    assert p[0][0] == 2.0 by { AvgPool2x2(Example, 3, 0, 0); }
    assert p[0][1] == 3.0 by { AvgPool2x2(Example, 3, 0, 1); }
    assert p[1][0] == 5.0 by { AvgPool2x2(Example, 3, 1, 0); }
    assert p[1][1] == 6.0 by { AvgPool2x2(Example, 3, 1, 1); }
    MatrixIs2x2(p, 2.0, 3.0, 5.0, 6.0);
  }
}
