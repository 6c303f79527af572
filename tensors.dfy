/** Dense 2-D matrices as sequences of rows, their link to 2-D arrays, and reshaping. */
module Tensors {

  type Matrix = seq<seq<real>>

  /** `m` has `rows` rows of `cols` entries each. */
  predicate IsMatrix<T>(m: seq<seq<T>>, rows: nat, cols: nat) {
    |m| == rows && forall r :: 0 <= r < rows ==> |m[r]| == cols
  }

  /** The contents of a 2-D array, row by row. */
  function Cells<T>(a: array2<T>): (m: seq<seq<T>>)
    reads a
    ensures IsMatrix(m, a.Length0, a.Length1)
    ensures forall r, c :: 0 <= r < a.Length0 && 0 <= c < a.Length1 ==> m[r][c] == a[r, c]
  {
    seq(a.Length0, r requires 0 <= r < a.Length0 reads a =>
      seq(a.Length1, c requires 0 <= c < a.Length1 reads a => a[r, c]))
  }

  /** numpy's `zeros((rows, cols))`. */
  function Zeros(rows: nat, cols: nat): (m: Matrix)
    ensures IsMatrix(m, rows, cols)
    ensures forall r, c :: 0 <= r < rows && 0 <= c < cols ==> m[r][c] == 0.0
  {
    seq(rows, _ => seq(cols, _ => 0.0))
  }

  // ---------------------------------------------------------------------
  // Reshaping: cutting a flat sequence into rows and joining rows back
  // ---------------------------------------------------------------------

  /** Consecutive runs of `k` elements; only the last run may be shorter. */
  function Chunks<T>(xs: seq<T>, k: nat): seq<seq<T>>
    requires k > 0
    decreases |xs|
  {
    if xs == [] then []
    else if |xs| <= k then [xs]
    else [xs[..k]] + Chunks(xs[k..], k)
  }

  /** The elements of the pieces, in order. */
  function Concat<T>(xss: seq<seq<T>>): (r: seq<T>)
    ensures |xss| > 0 ==> |r| >= |xss[0]|
  {
    if xss == [] then [] else xss[0] + Concat(xss[1..])
  }

  /** Concatenating the chunks gives the sequence back. */
  lemma {:induction false} ConcatChunks<T>(xs: seq<T>, k: nat)
    requires k > 0
    ensures Concat(Chunks(xs, k)) == xs
    decreases |xs|
  {
    if |xs| > k {
      ConcatChunks(xs[k..], k);
      assert ([xs[..k]] + Chunks(xs[k..], k))[1..] == Chunks(xs[k..], k);
      assert xs[..k] + xs[k..] == xs;
    } else if xs != [] {
      assert Concat([xs]) == xs + Concat([]);
    }
  }

  /** A sequence of `n * k` elements falls into `n` chunks of exactly `k`. */
  lemma {:induction false} ChunksShape<T>(xs: seq<T>, n: nat, k: nat)
    requires k > 0 && |xs| == n * k
    ensures |Chunks(xs, k)| == n
    ensures forall i :: 0 <= i < n ==> |Chunks(xs, k)[i]| == k
  {
    if n > 0 {
      assert |xs| >= k by {
        assert n * k == (n - 1) * k + k;
      }
      if n == 1 {
        assert |xs| == k;
      } else {
        assert |xs[k..]| == (n - 1) * k;
        ChunksShape(xs[k..], n - 1, k);
        var r := Chunks(xs, k);
        assert r == [xs[..k]] + Chunks(xs[k..], k);
        forall i | 0 <= i < n
          ensures |r[i]| == k
        {
          if i > 0 {
            assert r[i] == Chunks(xs[k..], k)[i - 1];
          }
        }
      }
    }
  }

  /** Every element of every chunk comes from the sequence. */
  lemma {:induction false} ChunkMembers<T>(xs: seq<T>, k: nat)
    requires k > 0
    ensures forall i, j :: 0 <= i < |Chunks(xs, k)| && 0 <= j < |Chunks(xs, k)[i]| ==> Chunks(xs, k)[i][j] in xs
    decreases |xs|
  {
    if |xs| > k {
      ChunkMembers(xs[k..], k);
      var r := Chunks(xs, k);
      forall i, j | 0 <= i < |r| && 0 <= j < |r[i]|
        ensures r[i][j] in xs
      {
        if i == 0 {
          assert r[0][j] == xs[j];
        } else {
          assert r[i] == Chunks(xs[k..], k)[i - 1];
          assert r[i][j] in xs[k..];
        }
      }
    }
  }

  /** Element j of chunk i is element `i * k + j` of the sequence: chunks are laid out row-major. */
  lemma {:induction false} ChunkIndex<T>(xs: seq<T>, n: nat, k: nat, i: nat, j: nat)
    requires k > 0 && |xs| == n * k && i < n && j < k
    ensures i < |Chunks(xs, k)| && j < |Chunks(xs, k)[i]| && i * k + j < |xs|
    ensures Chunks(xs, k)[i][j] == xs[i * k + j]
  {
    ChunksShape(xs, n, k);
    RowMajorOffset(n, k, i, j);
    if i > 0 {
      ChunkIndex(xs[k..], n - 1, k, i - 1, j);
      ChunksShape(xs[k..], n - 1, k);
      assert Chunks(xs, k)[i] == Chunks(xs[k..], k)[i - 1];
    }
  }

  /** Multiplying by a natural number keeps the order. */
  lemma MulLeq(x: nat, y: nat, k: nat)
    requires x <= y
    ensures x * k <= y * k
  {
  }

  /** The arithmetic of a row-major layout of n rows of k: offsets are in range, and dropping the first row shifts them by k. */
  lemma RowMajorOffset(n: nat, k: nat, i: nat, j: nat)
    requires i < n && j < k
    ensures i * k + j < n * k
    ensures (n - 1) * k == n * k - k
    ensures i > 0 ==> (i - 1) * k + j + k == i * k + j
  {
    MulLeq(i + 1, n, k);
    assert (i + 1) * k == i * k + k;
    assert (n - 1) * k + k == n * k;
    if i > 0 {
      assert (i - 1) * k + k == i * k;
    }
  }

  lemma {:induction false} ConcatOfEmpties<T>(xss: seq<seq<T>>)
    requires forall i :: 0 <= i < |xss| ==> xss[i] == []
    ensures Concat(xss) == []
  {
    if xss != [] {
      ConcatOfEmpties(xss[1..]);
    }
  }

  /** Rows of equal length w concatenate to |xss| * w elements. */
  lemma {:induction false} ConcatLength<T>(xss: seq<seq<T>>, w: nat)
    requires forall a :: 0 <= a < |xss| ==> |xss[a]| == w
    ensures |Concat(xss)| == |xss| * w
  {
    if xss != [] {
      ConcatLength(xss[1..], w);
    }
  }

  /** Every element of every row occurs in the concatenation. */
  lemma {:induction false} ConcatHas<T>(xss: seq<seq<T>>, a: nat, b: nat)
    requires a < |xss| && b < |xss[a]|
    ensures xss[a][b] in Concat(xss)
  {
    if a > 0 {
      ConcatHas(xss[1..], a - 1, b);
    }
  }

  /** Every element of the concatenation comes from one of the rows. */
  lemma {:induction false} ConcatFrom<T>(xss: seq<seq<T>>, x: T)
    requires x in Concat(xss)
    ensures exists a, b :: 0 <= a < |xss| && 0 <= b < |xss[a]| && xss[a][b] == x
  {
    if xss != [] {
      if x in xss[0] {
        var b :| 0 <= b < |xss[0]| && xss[0][b] == x;
        assert xss[0][b] == x;
      } else {
        assert x in Concat(xss[1..]);
        ConcatFrom(xss[1..], x);
        var a, b :| 0 <= a < |xss[1..]| && 0 <= b < |xss[1..][a]| && xss[1..][a][b] == x;
        assert xss[a + 1][b] == x;
      }
    }
  }
}
