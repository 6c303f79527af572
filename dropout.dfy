/**
 * Inverted dropout and the three-layer perceptron that applies it to its two
 * hidden layers while training. The uniform samples that decide which units
 * are dropped are passed in.
 */
module Dropout {
  import opened Wrappers
  import opened Tensors

  /** The `assert 0 <= drop_prob <= 1` failing. */
  datatype DropoutError = AssertionError

  /**
   * `dropout(X, drop_prob)`: with `u` the uniform samples drawn for `X`, keep an entry
   * when its sample exceeds `p`, scaled by 1 / (1 - p); all zeros when p is 1.
   */
  function Dropout(X: Matrix, cols: nat, p: real, u: Matrix): (r: Result<Matrix, DropoutError>)
    requires IsMatrix(X, |X|, cols) && IsMatrix(u, |X|, cols)
    ensures r.Ok? <==> 0.0 <= p <= 1.0
    ensures r.Ok? ==> IsMatrix(r.value, |X|, cols)
    ensures r.Ok? && p == 1.0 ==> forall i, j :: 0 <= i < |X| && 0 <= j < cols ==> r.value[i][j] == 0.0
  {
    if !(0.0 <= p <= 1.0) then Err(AssertionError)
    else if p == 1.0 then Ok(Zeros(|X|, cols))
    else Ok(seq(|X|, i requires 0 <= i < |X| =>
              seq(cols, j requires 0 <= j < cols => (if u[i][j] > p then 1.0 else 0.0) * X[i][j] / (1.0 - p))))
  }

  /**
   * Below a drop probability of 1, an entry survives exactly when its sample
   * exceeds the probability (and it was not zero already); a dropped entry is
   * 0 and a kept one is `x / (1 - p)`.
   */
  lemma DropoutKeepsAboveThreshold(X: Matrix, cols: nat, p: real, u: Matrix, i: nat, j: nat)
    requires IsMatrix(X, |X|, cols) && IsMatrix(u, |X|, cols)
    requires 0.0 <= p < 1.0 && i < |X| && j < cols
    ensures var y := Dropout(X, cols, p, u).value[i][j];
      && (u[i][j] <= p ==> y == 0.0)
      && (u[i][j] > p ==> y * (1.0 - p) == X[i][j])
      && (y != 0.0 <==> u[i][j] > p && X[i][j] != 0.0)
  {
    var y := Dropout(X, cols, p, u).value[i][j];
    if u[i][j] > p {
      assert y == X[i][j] / (1.0 - p);
      if X[i][j] != 0.0 {
        assert y * (1.0 - p) != 0.0;
      }
    }
  }

  /** Dropout never changes an entry's sign: non-negative activations stay non-negative. */
  lemma DropoutKeepsSign(X: Matrix, cols: nat, p: real, u: Matrix)
    requires IsMatrix(X, |X|, cols) && IsMatrix(u, |X|, cols) && 0.0 <= p <= 1.0
    requires forall i, j :: 0 <= i < |X| && 0 <= j < cols ==> X[i][j] >= 0.0
    ensures forall i, j :: 0 <= i < |X| && 0 <= j < cols ==> Dropout(X, cols, p, u).value[i][j] >= 0.0
  {
    if p < 1.0 {
      forall i, j | 0 <= i < |X| && 0 <= j < cols
        ensures Dropout(X, cols, p, u).value[i][j] >= 0.0
      {
        DropoutKeepsAboveThreshold(X, cols, p, u, i, j);
      }
    }
  }

  /** When every sample is at most the drop probability, the result is all zeros whatever `X` holds. */
  lemma DropoutDropsAll(X: Matrix, cols: nat, p: real, u: Matrix)
    requires IsMatrix(X, |X|, cols) && IsMatrix(u, |X|, cols) && 0.0 <= p <= 1.0
    requires forall i, j :: 0 <= i < |X| && 0 <= j < cols ==> u[i][j] <= p
    ensures Dropout(X, cols, p, u).value == Zeros(|X|, cols)
  {
    var r := Dropout(X, cols, p, u).value;
    if p < 1.0 {
      forall i, j | 0 <= i < |X| && 0 <= j < cols
        ensures r[i][j] == 0.0
      {
        DropoutKeepsAboveThreshold(X, cols, p, u, i, j);
      }
    }
    assert forall i :: 0 <= i < |X| ==> r[i] == Zeros(|X|, cols)[i];
  }

  // ---------------------------------------------------------------------
  // net
  // ---------------------------------------------------------------------

  /** Column j of `B` dotted with `a`. */
  function DotCol(a: seq<real>, B: Matrix, j: nat): real
    requires |a| <= |B| && forall t :: 0 <= t < |a| ==> j < |B[t]|
  {
    if a == [] then 0.0 else DotCol(a[..|a| - 1], B, j) + a[|a| - 1] * B[|a| - 1][j]
  }

  /** `nd.dot(A, B)` for an n x k and a k x m matrix. */
  function MatMul(A: Matrix, B: Matrix, k: nat, m: nat): (C: Matrix)
    requires IsMatrix(A, |A|, k) && IsMatrix(B, k, m)
    ensures IsMatrix(C, |A|, m)
  {
    seq(|A|, i requires 0 <= i < |A| => seq(m, j requires 0 <= j < m => DotCol(A[i], B, j)))
  }

  /** `A + b`, broadcasting the bias over the rows. */
  function AddBias(A: Matrix, b: seq<real>, m: nat): (C: Matrix)
    requires IsMatrix(A, |A|, m) && |b| == m
    ensures IsMatrix(C, |A|, m)
  {
    seq(|A|, i requires 0 <= i < |A| => seq(m, j requires 0 <= j < m => A[i][j] + b[j]))
  }

  /** `relu()`: negative entries become 0. */
  function Relu(A: Matrix, m: nat): (C: Matrix)
    requires IsMatrix(A, |A|, m)
    ensures IsMatrix(C, |A|, m)
    ensures forall i, j :: 0 <= i < |A| && 0 <= j < m ==> C[i][j] >= 0.0 && (A[i][j] >= 0.0 ==> C[i][j] == A[i][j])
  {
    seq(|A|, i requires 0 <= i < |A| => seq(m, j requires 0 <= j < m => if A[i][j] > 0.0 then A[i][j] else 0.0))
  }

  /** `W1, b1, W2, b2, W3, b3`. */
  datatype Params = Params(w1: Matrix, b1: seq<real>, w2: Matrix, b2: seq<real>, w3: Matrix, b3: seq<real>)

  /** The weights map `inputs` to `h1` to `h2` to `outputs` units. */
  predicate Fits(P: Params, inputs: nat, h1: nat, h2: nat, outputs: nat) {
    && IsMatrix(P.w1, inputs, h1) && |P.b1| == h1
    && IsMatrix(P.w2, h1, h2) && |P.b2| == h2
    && IsMatrix(P.w3, h2, outputs) && |P.b3| == outputs
  }

  /** `drop_prob1, drop_prob2`. */
  const DropProb1: real := 0.2
  const DropProb2: real := 0.5

  /** A hidden layer before dropout: `(nd.dot(X, W) + b).relu()`. */
  function Hidden(X: Matrix, W: Matrix, b: seq<real>, k: nat, m: nat): (H: Matrix)
    requires IsMatrix(X, |X|, k) && IsMatrix(W, k, m) && |b| == m
    ensures IsMatrix(H, |X|, m)
  {
    Relu(AddBias(MatMul(X, W, k, m), b, m), m)
  }

  /** Dropout on a hidden layer while training, nothing otherwise. */
  function MaybeDrop(H: Matrix, m: nat, training: bool, p: real, u: Matrix): (R: Matrix)
    requires IsMatrix(H, |H|, m) && IsMatrix(u, |H|, m) && 0.0 <= p <= 1.0
    ensures IsMatrix(R, |H|, m)
  {
    if training then Dropout(H, m, p, u).value else H
  }

  /**
   * `net(X)` on rows that already hold `inputs` values: two ReLU layers,
   * each followed by dropout while training, then the linear output layer.
   * `u1` and `u2` are the uniform samples of the two dropouts.
   */
  function Net(X: Matrix, P: Params, inputs: nat, h1: nat, h2: nat, outputs: nat,
               training: bool, u1: Matrix, u2: Matrix): (Y: Matrix)
    requires IsMatrix(X, |X|, inputs) && Fits(P, inputs, h1, h2, outputs)
    requires IsMatrix(u1, |X|, h1) && IsMatrix(u2, |X|, h2)
    ensures IsMatrix(Y, |X|, outputs)
  {
    var H1 := MaybeDrop(Hidden(X, P.w1, P.b1, inputs, h1), h1, training, DropProb1, u1);
    var H2 := MaybeDrop(Hidden(H1, P.w2, P.b2, h1, h2), h2, training, DropProb2, u2);
    AddBias(MatMul(H2, P.w3, h2, outputs), P.b3, outputs)
  }

  /** Outside training the samples play no part: the network is deterministic. */
  lemma EvalIgnoresSamples(X: Matrix, P: Params, inputs: nat, h1: nat, h2: nat, outputs: nat,
                           u1: Matrix, u2: Matrix, v1: Matrix, v2: Matrix)
    requires IsMatrix(X, |X|, inputs) && Fits(P, inputs, h1, h2, outputs)
    requires IsMatrix(u1, |X|, h1) && IsMatrix(u2, |X|, h2)
    requires IsMatrix(v1, |X|, h1) && IsMatrix(v2, |X|, h2)
    ensures Net(X, P, inputs, h1, h2, outputs, false, u1, u2) == Net(X, P, inputs, h1, h2, outputs, false, v1, v2)
  {
  }

  /**
   * While training, the first dropout runs on the first hidden layer: when it
   * drops every unit, the output no longer depends on the input at all.
   */
  lemma TrainingDropsFirstLayer(X: Matrix, Z: Matrix, P: Params, inputs: nat, h1: nat, h2: nat, outputs: nat,
                                u1: Matrix, u2: Matrix)
    requires IsMatrix(X, |X|, inputs) && IsMatrix(Z, |X|, inputs) && Fits(P, inputs, h1, h2, outputs)
    requires IsMatrix(u1, |X|, h1) && IsMatrix(u2, |X|, h2)
    requires forall i, j :: 0 <= i < |X| && 0 <= j < h1 ==> u1[i][j] <= DropProb1
    ensures Net(X, P, inputs, h1, h2, outputs, true, u1, u2) == Net(Z, P, inputs, h1, h2, outputs, true, u1, u2)
  {
    DropoutDropsAll(Hidden(X, P.w1, P.b1, inputs, h1), h1, DropProb1, u1);
    DropoutDropsAll(Hidden(Z, P.w1, P.b1, inputs, h1), h1, DropProb1, u1);
  }

  /** A dot product with an all-zero row is 0. */
  lemma {:induction false} DotColOfZeros(a: seq<real>, B: Matrix, j: nat)
    requires |a| <= |B| && forall t :: 0 <= t < |a| ==> j < |B[t]|
    requires forall t :: 0 <= t < |a| ==> a[t] == 0.0
    ensures DotCol(a, B, j) == 0.0
  {
    if a != [] {
      DotColOfZeros(a[..|a| - 1], B, j);
    }
  }

  /**
   * While training, the second dropout runs on the second hidden layer: when
   * it drops every unit, every output row is the output bias, whatever the
   * input and the first layer's samples.
   */
  lemma TrainingDropsSecondLayer(X: Matrix, P: Params, inputs: nat, h1: nat, h2: nat, outputs: nat,
                                 u1: Matrix, u2: Matrix)
    requires IsMatrix(X, |X|, inputs) && Fits(P, inputs, h1, h2, outputs)
    requires IsMatrix(u1, |X|, h1) && IsMatrix(u2, |X|, h2)
    requires forall i, j :: 0 <= i < |X| && 0 <= j < h2 ==> u2[i][j] <= DropProb2
    ensures forall i :: 0 <= i < |X| ==> Net(X, P, inputs, h1, h2, outputs, true, u1, u2)[i] == P.b3
  {
    var H1 := MaybeDrop(Hidden(X, P.w1, P.b1, inputs, h1), h1, true, DropProb1, u1);
    var G2 := Hidden(H1, P.w2, P.b2, h1, h2);
    DropoutDropsAll(G2, h2, DropProb2, u2);
    var H2 := MaybeDrop(G2, h2, true, DropProb2, u2);
    var Y := Net(X, P, inputs, h1, h2, outputs, true, u1, u2);
    assert Y == AddBias(MatMul(H2, P.w3, h2, outputs), P.b3, outputs);
    forall i | 0 <= i < |X|
      ensures Y[i] == P.b3
    {
      forall j | 0 <= j < outputs
        ensures Y[i][j] == P.b3[j]
      {
        DotColOfZeros(H2[i], P.w3, j);
      }
    }
  }

  /** While training, the hidden units fed to the output layer are non-negative, as ReLU left them. */
  lemma TrainingHiddenNonNegative(X: Matrix, P: Params, inputs: nat, h1: nat, h2: nat, outputs: nat,
                                  u1: Matrix, u2: Matrix)
    requires IsMatrix(X, |X|, inputs) && Fits(P, inputs, h1, h2, outputs)
    requires IsMatrix(u1, |X|, h1) && IsMatrix(u2, |X|, h2)
    ensures var H1 := MaybeDrop(Hidden(X, P.w1, P.b1, inputs, h1), h1, true, DropProb1, u1);
      var H2 := MaybeDrop(Hidden(H1, P.w2, P.b2, h1, h2), h2, true, DropProb2, u2);
      forall i, j :: 0 <= i < |X| && 0 <= j < h2 ==> H2[i][j] >= 0.0
  {
    var G1 := Hidden(X, P.w1, P.b1, inputs, h1);
    DropoutKeepsSign(G1, h1, DropProb1, u1);
    var H1 := MaybeDrop(G1, h1, true, DropProb1, u1);
    DropoutKeepsSign(Hidden(H1, P.w2, P.b2, h1, h2), h2, DropProb2, u2);
  }
}
