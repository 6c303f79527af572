/**
 * The Reuters newswire encoders: multi-hot vectors of word indices, one-hot
 * labels, the inverted word index with its decoder, and the split of the
 * training set into a validation prefix and the remaining suffix.
 */
module Reuters {
  import opened Wrappers
  import opened Tensors
  import opened Text

  /** numpy raises IndexError for an index outside [-n, n). */
  datatype IndexError = IndexError

  /** The position numpy addresses with `j` on an axis of length `n`; negative indices count from the end. */
  function AxisIndex(j: int, n: nat): (r: Option<nat>)
    ensures r.Some? <==> -(n as int) <= j < n
    ensures r.Some? ==> r.value < n && (r.value == j || r.value == j + n)
  {
    if 0 <= j < n then Some(j)
    else if -(n as int) <= j < 0 then Some(j + n)
    else None
  }

  // ---------------------------------------------------------------------
  // vectorize_sequences
  // ---------------------------------------------------------------------

  /** Some entry of `sequence` addresses column `c` of a row of `dim` columns. */
  predicate Hit(sequence: seq<int>, dim: nat, c: int) {
    exists t :: 0 <= t < |sequence| && AxisIndex(sequence[t], dim) == Some(c)
  }

  /** Every index in every sequence addresses a column. */
  predicate IndicesOk(seqs: seq<seq<int>>, dim: nat) {
    forall i, t :: 0 <= i < |seqs| && 0 <= t < |seqs[i]| ==> AxisIndex(seqs[i][t], dim).Some?
  }

  /** The multi-hot row of one sequence: 1 at every addressed column, 0 elsewhere. */
  function MultiHotRow(sequence: seq<int>, dim: nat): seq<real> {
    seq(dim, c => if Hit(sequence, dim, c) then 1.0 else 0.0)
  }

  function MultiHotMatrix(seqs: seq<seq<int>>, dim: nat): (m: Matrix)
    ensures IsMatrix(m, |seqs|, dim)
  {
    seq(|seqs|, i requires 0 <= i < |seqs| => MultiHotRow(seqs[i], dim))
  }

  /**
   * `vectorize_sequences`: a zero matrix of `len(sequences)` x `dimension`, with
   * `results[i, sequence] = 1.` for every sequence.
   */
  method VectorizeSequences(seqs: seq<seq<int>>, dim: nat) returns (r: Result<array2<real>, IndexError>)
    ensures r.Ok? <==> IndicesOk(seqs, dim)
    ensures r.Ok? ==> fresh(r.value) && Cells(r.value) == MultiHotMatrix(seqs, dim)
  {
    var results := new real[|seqs|, dim]((_, _) => 0.0);
    var i := 0;
    while i < |seqs|
      invariant 0 <= i <= |seqs|
      invariant forall k, t :: 0 <= k < i && 0 <= t < |seqs[k]| ==> AxisIndex(seqs[k][t], dim).Some?
      invariant forall k, c :: 0 <= k < i && 0 <= c < dim ==> results[k, c] == MultiHotRow(seqs[k], dim)[c]
      invariant forall k, c :: i <= k < |seqs| && 0 <= c < dim ==> results[k, c] == 0.0
    {
      var sequence := seqs[i];
      var t := 0;
      while t < |sequence|
        invariant 0 <= t <= |sequence|
        invariant forall u :: 0 <= u < t ==> AxisIndex(sequence[u], dim).Some?
        invariant forall c :: 0 <= c < dim ==> results[i, c] == if Hit(sequence[..t], dim, c) then 1.0 else 0.0
        invariant forall k, c :: 0 <= k < i && 0 <= c < dim ==> results[k, c] == MultiHotRow(seqs[k], dim)[c]
        invariant forall k, c :: i < k < |seqs| && 0 <= c < dim ==> results[k, c] == 0.0
      {
        var col := AxisIndex(sequence[t], dim);
        if col.None? {
          return Err(IndexError);
        }
        HitSnoc(sequence, dim, t);
        results[i, col.value] := 1.0;
        t := t + 1;
      }
      assert sequence[..t] == sequence;
      i := i + 1;
    }
    r := Ok(results);
    assert forall k :: 0 <= k < |seqs| ==> Cells(results)[k] == MultiHotMatrix(seqs, dim)[k];
  }

  /** Taking one more entry adds exactly the column it addresses. */
  lemma HitSnoc(sequence: seq<int>, dim: nat, t: nat)
    requires t < |sequence| && AxisIndex(sequence[t], dim).Some?
    ensures forall c :: Hit(sequence[..t + 1], dim, c) <==>
      Hit(sequence[..t], dim, c) || c == AxisIndex(sequence[t], dim).value
  {
    var pre := sequence[..t + 1];
    forall c | Hit(sequence[..t], dim, c)
      ensures Hit(pre, dim, c)
    {
      var u :| 0 <= u < t && AxisIndex(sequence[..t][u], dim) == Some(c);
      assert pre[u] == sequence[..t][u];
    }
    assert pre[t] == sequence[t];
    forall c | Hit(pre, dim, c) && c != AxisIndex(sequence[t], dim).value
      ensures Hit(sequence[..t], dim, c)
    {
      var u :| 0 <= u < t + 1 && AxisIndex(pre[u], dim) == Some(c);
      assert u != t;
      assert sequence[..t][u] == pre[u];
    }
  }

  /**
   * With every index in [0, dimension), entry [i][j] of the encoding is 1
   * exactly when j occurs in the sequence, and 0 otherwise.
   */
  lemma MultiHotIsIndicator(sequence: seq<int>, dim: nat)
    requires forall t :: 0 <= t < |sequence| ==> 0 <= sequence[t] < dim
    ensures var row := MultiHotRow(sequence, dim);
      |row| == dim && forall c :: 0 <= c < dim ==>
        (row[c] == 1.0 <==> c in sequence) && (row[c] == 0.0 <==> c !in sequence)
  {
    var row := MultiHotRow(sequence, dim);
    forall c | 0 <= c < dim
      ensures row[c] == 1.0 <==> c in sequence
    {
      if c in sequence {
        var t :| 0 <= t < |sequence| && sequence[t] == c;
        assert AxisIndex(sequence[t], dim) == Some(c);
      }
    }
  }

  /**
   * Only which indices occur matters: repeating an index, or reordering the
   * sequence, gives the same row.
   */
  lemma MultiHotIgnoresRepeats(s: seq<int>, u: seq<int>, dim: nat)
    requires forall x :: x in s <==> x in u
    ensures MultiHotRow(s, dim) == MultiHotRow(u, dim)
  {
    forall c | 0 <= c < dim
      ensures Hit(s, dim, c) <==> Hit(u, dim, c)
    {
      if Hit(s, dim, c) {
        var t :| 0 <= t < |s| && AxisIndex(s[t], dim) == Some(c);
        assert s[t] in u;
        var t' :| 0 <= t' < |u| && u[t'] == s[t];
      }
      if Hit(u, dim, c) {
        var t :| 0 <= t < |u| && AxisIndex(u[t], dim) == Some(c);
        assert u[t] in s;
        var t' :| 0 <= t' < |s| && s[t'] == u[t];
      }
    }
  }

  // ---------------------------------------------------------------------
  // to_one_hot
  // ---------------------------------------------------------------------

  /** The one-hot row of a label: 1 at the addressed column, 0 elsewhere. */
  function OneHotRow(category: int, dim: nat): (row: seq<real>)
    ensures |row| == dim
  {
    seq(dim, c => if AxisIndex(category, dim) == Some(c) then 1.0 else 0.0)
  }

  function ZeroRow(dim: nat): (row: seq<real>)
    ensures |row| == dim && forall c :: 0 <= c < dim ==> row[c] == 0.0
  {
    seq(dim, _ => 0.0)
  }

  /** The matrix the early return leaves: row 0 one-hot, every later row zero. */
  function FirstRowOnly(labels: seq<int>, dim: nat): (m: Matrix)
    requires labels != []
    ensures IsMatrix(m, |labels|, dim)
    ensures m[0] == OneHotRow(labels[0], dim)
    ensures forall i :: 1 <= i < |labels| ==> m[i] == ZeroRow(dim)
  {
    [OneHotRow(labels[0], dim)] + seq(|labels| - 1, _ => ZeroRow(dim))
  }

  /**
   * What `to_one_hot` returns as written: its `return` sits inside the loop,
   * so only row 0 is set before returning, and an empty label list falls off
   * the end of the function and yields None.
   */
  function OneHotAsWritten(labels: seq<int>, dim: nat): (r: Result<Option<Matrix>, IndexError>)
    ensures r.Ok? && r.value.Some? ==> IsMatrix(r.value.value, |labels|, dim)
  {
    if labels == [] then Ok(None)
    else if AxisIndex(labels[0], dim).None? then Err(IndexError)
    else Ok(Some(FirstRowOnly(labels, dim)))
  }

  /** What the loop evidently means: every row i is the one-hot row of `labels[i]`. */
  function OneHot(labels: seq<int>, dim: nat): (r: Result<Matrix, IndexError>)
    ensures r.Ok? <==> forall i :: 0 <= i < |labels| ==> -(dim as int) <= labels[i] < dim
    ensures r.Ok? ==> IsMatrix(r.value, |labels|, dim)
  {
    if forall i :: 0 <= i < |labels| ==> AxisIndex(labels[i], dim).Some? then
      Ok(seq(|labels|, i requires 0 <= i < |labels| => OneHotRow(labels[i], dim)))
    else
      Err(IndexError)
  }

  /** `to_one_hot` as written, returning inside the loop. */
  method ToOneHotAsWritten(labels: seq<int>, dim: nat) returns (r: Result<Option<array2<real>>, IndexError>)
    ensures r.Ok? <==> OneHotAsWritten(labels, dim).Ok?
    ensures r.Ok? ==> (r.value.Some? <==> OneHotAsWritten(labels, dim).value.Some?)
    ensures r.Ok? && r.value.Some? ==>
      fresh(r.value.value) && Cells(r.value.value) == OneHotAsWritten(labels, dim).value.value
  {
    var results := new real[|labels|, dim]((_, _) => 0.0);
    for i := 0 to |labels|
      invariant i == 0
      invariant forall k, c :: 0 <= k < |labels| && 0 <= c < dim ==> results[k, c] == 0.0
    {
      var col := AxisIndex(labels[i], dim);
      if col.None? {
        return Err(IndexError);
      }
      results[i, col.value] := 1.0;
      r := Ok(Some(results));
      ghost var want := OneHotAsWritten(labels, dim).value.value;
      forall k | 0 <= k < |labels|
        ensures Cells(results)[k] == want[k]
      {
        if k == 0 {
          assert want[k] == OneHotRow(labels[0], dim);
        } else {
          assert want[k] == ZeroRow(dim);
        }
        assert forall c :: 0 <= c < dim ==> Cells(results)[k][c] == want[k][c];
      }
      return;
    }
    return Ok(None);
  }

  /** `to_one_hot` with the `return` moved after the loop. */
  method ToOneHot(labels: seq<int>, dim: nat) returns (r: Result<array2<real>, IndexError>)
    ensures r.Ok? <==> OneHot(labels, dim).Ok?
    ensures r.Ok? ==> fresh(r.value) && Cells(r.value) == OneHot(labels, dim).value
  {
    var results := new real[|labels|, dim]((_, _) => 0.0);
    for i := 0 to |labels|
      invariant forall k :: 0 <= k < i ==> AxisIndex(labels[k], dim).Some?
      invariant forall k, c :: 0 <= k < i && 0 <= c < dim ==> results[k, c] == OneHotRow(labels[k], dim)[c]
      invariant forall k, c :: i <= k < |labels| && 0 <= c < dim ==> results[k, c] == 0.0
    {
      var col := AxisIndex(labels[i], dim);
      if col.None? {
        return Err(IndexError);
      }
      results[i, col.value] := 1.0;
    }
    r := Ok(results);
    assert forall k :: 0 <= k < |labels| ==> Cells(results)[k] == OneHot(labels, dim).value[k];
  }

  /** A one-hot row is the multi-hot row of the one-element sequence. */
  lemma OneHotIsSingleMultiHot(category: int, dim: nat)
    ensures OneHotRow(category, dim) == MultiHotRow([category], dim)
  {
    forall c | 0 <= c < dim
      ensures Hit([category], dim, c) <==> AxisIndex(category, dim) == Some(c)
    {
      if AxisIndex(category, dim) == Some(c) {
        assert [category][0] == category;
      }
    }
  }

  /** Each intended row holds a single 1, at the label's column. */
  lemma OneHotRowsHaveOneOne(labels: seq<int>, dim: nat, i: nat)
    requires OneHot(labels, dim).Ok? && i < |labels|
    ensures 0 <= labels[i] + (if labels[i] < 0 then dim else 0) < dim
    ensures forall c :: 0 <= c < dim ==>
      (OneHot(labels, dim).value[i][c] == 1.0 <==> c == labels[i] + (if labels[i] < 0 then dim else 0))
      && (OneHot(labels, dim).value[i][c] == 0.0 <==> c != labels[i] + (if labels[i] < 0 then dim else 0))
  {
  }

  /**
   * As written, only row 0 is ever set: every later row is all zeros, while
   * the intended encoding puts a 1 in each of them.
   */
  lemma OneHotAsWrittenDropsLaterRows(labels: seq<int>, dim: nat, i: nat)
    requires OneHot(labels, dim).Ok? && 1 <= i < |labels|
    ensures OneHotAsWritten(labels, dim).Ok? && OneHotAsWritten(labels, dim).value.Some?
    ensures forall c :: 0 <= c < dim ==> OneHotAsWritten(labels, dim).value.value[i][c] == 0.0
    ensures OneHotAsWritten(labels, dim).value.value[i] != OneHot(labels, dim).value[i]
  {
    var c := AxisIndex(labels[i], dim).value;
    assert OneHot(labels, dim).value[i][c] == 1.0;
    assert OneHotAsWritten(labels, dim).value.value[i][c] == 0.0;
  }

  /** The concrete case: labels [0, 1] over two classes. */
  lemma OneHotAsWrittenExample()
    ensures OneHotAsWritten([0, 1], 2) == Ok(Some([[1.0, 0.0], [0.0, 0.0]]))
    ensures OneHot([0, 1], 2) == Ok([[1.0, 0.0], [0.0, 1.0]])
  {
    assert OneHotRow(0, 2) == [1.0, 0.0] by {
      assert OneHotRow(0, 2)[0] == 1.0 && OneHotRow(0, 2)[1] == 0.0;
    }
    assert OneHotRow(1, 2) == [0.0, 1.0] by {
      assert OneHotRow(1, 2)[0] == 0.0 && OneHotRow(1, 2)[1] == 1.0;
    }
    assert ZeroRow(2) == [0.0, 0.0];
    var w := OneHotAsWritten([0, 1], 2).value.value;
    assert w == [[1.0, 0.0], [0.0, 0.0]] by {
      assert w[0] == OneHotRow(0, 2) && w[1] == ZeroRow(2);
    }
    var m := OneHot([0, 1], 2).value;
    assert m == [[1.0, 0.0], [0.0, 1.0]] by {
      assert m[0] == OneHotRow(0, 2) && m[1] == OneHotRow(1, 2);
    }
  }

  // ---------------------------------------------------------------------
  // The reverse word index and decoding
  // ---------------------------------------------------------------------

  /**
   * `dict([(value, key) for (key, value) in word_index.items()])`, with the
   * items in the dictionary's order: a later pair overrides an earlier one.
   */
  function ReverseIndex(items: seq<(string, int)>): map<int, string> {
    if items == [] then map[]
    else ReverseIndex(items[..|items| - 1])[items[|items| - 1].1 := items[|items| - 1].0]
  }

  /**
   * The reverse index has a key for every index and nothing else, and maps
   * it to the word of the last pair carrying that index.
   */
  lemma {:induction false} ReverseIndexLastWins(items: seq<(string, int)>)
    ensures forall v :: v in ReverseIndex(items) <==> exists k :: 0 <= k < |items| && items[k].1 == v
    ensures forall v :: v in ReverseIndex(items) ==> exists k :: (0 <= k < |items| && items[k].1 == v
      && ReverseIndex(items)[v] == items[k].0
      && forall k' :: k < k' < |items| ==> items[k'].1 != v)
  {
    if items != [] {
      var pre := items[..|items| - 1];
      var last := items[|items| - 1];
      ReverseIndexLastWins(pre);
      forall v ensures v in ReverseIndex(items) <==> exists k :: 0 <= k < |items| && items[k].1 == v {
        if v in ReverseIndex(pre) {
          var k :| 0 <= k < |pre| && pre[k].1 == v;
          assert items[k] == pre[k];
        }
        if exists k :: 0 <= k < |items| && items[k].1 == v {
          var k :| 0 <= k < |items| && items[k].1 == v;
          if k < |pre| {
            assert pre[k] == items[k];
          }
        }
      }
      forall v | v in ReverseIndex(items)
        ensures exists k :: (0 <= k < |items| && items[k].1 == v
          && ReverseIndex(items)[v] == items[k].0
          && forall k' :: k < k' < |items| ==> items[k'].1 != v)
      {
        if v == last.1 {
          assert items[|items| - 1].1 == v;
        } else {
          var k :| 0 <= k < |pre| && pre[k].1 == v && ReverseIndex(pre)[v] == pre[k].0
            && forall k' :: k < k' < |pre| ==> pre[k'].1 != v;
          assert items[k] == pre[k];
          forall k' | k < k' < |items| ensures items[k'].1 != v {
            if k' < |pre| { assert items[k'] == pre[k']; }
          }
        }
      }
    }
  }

  /** A word index as a list of items: no word appears twice, and no index appears twice. */
  predicate Injective(items: seq<(string, int)>) {
    forall a, b :: 0 <= a < |items| && 0 <= b < |items| && a != b ==> items[a].0 != items[b].0 && items[a].1 != items[b].1
  }

  /** For an injective word index, `reverse_word_index[word_index[w]] == w`. */
  lemma ReverseOfInjective(items: seq<(string, int)>, k: nat)
    requires Injective(items) && k < |items|
    ensures items[k].1 in ReverseIndex(items) && ReverseIndex(items)[items[k].1] == items[k].0
  {
    ReverseIndexLastWins(items);
    var v := items[k].1;
    var k0 :| 0 <= k0 < |items| && items[k0].1 == v && ReverseIndex(items)[v] == items[k0].0
      && forall k' :: k0 < k' < |items| ==> items[k'].1 != v;
  }

  /** `reverse_word_index.get(i - 3, '?')` for each index of a newswire. */
  function DecodeTokens(reverse: map<int, string>, ids: seq<int>): (tokens: seq<string>)
    ensures |tokens| == |ids|
  {
    seq(|ids|, k requires 0 <= k < |ids| => if ids[k] - 3 in reverse then reverse[ids[k] - 3] else "?")
  }

  /** `decoded_newswire`: the tokens joined by single spaces. */
  function DecodeNewswire(reverse: map<int, string>, ids: seq<int>): string {
    Join(DecodeTokens(reverse, ids), ' ')
  }

  /**
   * Decoding against the word index itself: token k is the word of the last
   * item whose index is `ids[k] - 3`, or '?' when no item has that index.
   */
  lemma DecodeTokenAt(items: seq<(string, int)>, ids: seq<int>, k: nat)
    requires k < |ids|
    ensures (exists p :: 0 <= p < |items| && items[p].1 == ids[k] - 3) ==>
      exists p :: (0 <= p < |items| && items[p].1 == ids[k] - 3
        && DecodeTokens(ReverseIndex(items), ids)[k] == items[p].0
        && forall p' :: p < p' < |items| ==> items[p'].1 != ids[k] - 3)
    ensures (forall p :: 0 <= p < |items| ==> items[p].1 != ids[k] - 3) ==>
      DecodeTokens(ReverseIndex(items), ids)[k] == "?"
  {
    ReverseIndexLastWins(items);
  }

  /** Word indices start at 1, so the reserved indices 0, 1 and 2 always decode to '?'. */
  lemma ReservedDecodeToUnknown(items: seq<(string, int)>, ids: seq<int>, k: nat)
    requires forall j :: 0 <= j < |items| ==> items[j].1 >= 1
    requires k < |ids| && 0 <= ids[k] <= 2
    ensures DecodeTokens(ReverseIndex(items), ids)[k] == "?"
  {
    ReverseIndexLastWins(items);
  }

  /** Encoding words with the offset of 3 that the dataset uses. */
  function EncodeWords(items: seq<(string, int)>, positions: seq<nat>): (ids: seq<int>)
    requires forall k :: 0 <= k < |positions| ==> positions[k] < |items|
    ensures |ids| == |positions|
  {
    seq(|positions|, k requires 0 <= k < |positions| => items[positions[k]].1 + 3)
  }

  /** Decoding the offset indices of known words with an injective index gives the words back. */
  lemma DecodeEncode(items: seq<(string, int)>, positions: seq<nat>)
    requires Injective(items)
    requires forall k :: 0 <= k < |positions| ==> positions[k] < |items|
    ensures DecodeTokens(ReverseIndex(items), EncodeWords(items, positions))
      == seq(|positions|, k requires 0 <= k < |positions| => items[positions[k]].0)
  {
    forall k | 0 <= k < |positions|
      ensures DecodeTokens(ReverseIndex(items), EncodeWords(items, positions))[k] == items[positions[k]].0
    {
      ReverseOfInjective(items, positions[k]);
    }
  }

  /** When no word contains a space, splitting the decoded text recovers one token per index. */
  lemma DecodedTokensSplit(reverse: map<int, string>, ids: seq<int>)
    requires |ids| >= 1
    requires forall v :: v in reverse ==> ' ' !in reverse[v]
    ensures Split(DecodeNewswire(reverse, ids), ' ') == DecodeTokens(reverse, ids)
  {
    SplitJoin(DecodeTokens(reverse, ids), ' ');
  }

  // ---------------------------------------------------------------------
  // The validation split
  // ---------------------------------------------------------------------

  /** `(xs[:n], xs[n:])`, with Python's clamping of a slice bound past the end. */
  function SplitValidation<T>(xs: seq<T>, n: nat): (r: (seq<T>, seq<T>))
    ensures r.0 + r.1 == xs
    ensures |r.0| == if n <= |xs| then n else |xs|
  {
    if n <= |xs| then (xs[..n], xs[n..]) else (xs, [])
  }

  /**
   * Splitting the inputs and the labels at the same point keeps every
   * example with its label, in both parts.
   */
  lemma SplitKeepsPairs<T, U>(xs: seq<T>, ys: seq<U>, n: nat)
    requires |xs| == |ys|
    ensures var (xv, xr) := SplitValidation(xs, n); var (yv, yr) := SplitValidation(ys, n);
      && |xv| == |yv| && |xr| == |yr|
      && (forall k :: 0 <= k < |xv| ==> xv[k] == xs[k] && yv[k] == ys[k])
      && (forall k :: 0 <= k < |xr| ==> xr[k] == xs[|xv| + k] && yr[k] == ys[|xv| + k])
  {
    var (xv, xr) := SplitValidation(xs, n);
    var (yv, yr) := SplitValidation(ys, n);
    assert xv + xr == xs && yv + yr == ys;
    forall k | 0 <= k < |xr|
      ensures xr[k] == xs[|xv| + k] && yr[k] == ys[|xv| + k]
    {
      assert xs[|xv| + k] == (xv + xr)[|xv| + k];
      assert ys[|yv| + k] == (yv + yr)[|yv| + k];
    }
  }
}
