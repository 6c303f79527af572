/**
 * Drawing the latent space of the variational autoencoder: an n x n grid of
 * latent points is decoded, and each decoded digit is written as one
 * `digit_size` x `digit_size` tile of a single large figure. The decoder and
 * the grid coordinates (`norm.ppf` of a `linspace`) are given as inputs.
 */
module LatentGrid {
  import opened Wrappers
  import opened Tensors

  /** `np.tile([[xi, yi]], batch_size)`: one row of `batch_size` copies of the pair. */
  function TileFlat(xi: real, yi: real, batchSize: nat): (flat: seq<real>)
    ensures |flat| == 2 * batchSize
  {
    seq(2 * batchSize, t => if t % 2 == 0 then xi else yi)
  }

  /** `.reshape(batch_size, 2)`. */
  function Pairs(flat: seq<real>, batchSize: nat): (rows: Matrix)
    requires |flat| == 2 * batchSize
    ensures IsMatrix(rows, batchSize, 2)
  {
    seq(batchSize, r requires 0 <= r < batchSize => flat[2 * r..2 * r + 2])
  }

  /** `z_sample`: the latent batch fed to the decoder. */
  function ZSample(xi: real, yi: real, batchSize: nat): Matrix {
    Pairs(TileFlat(xi, yi, batchSize), batchSize)
  }

  /** The tiled batch has `batch_size` rows, each equal to `[xi, yi]`. */
  lemma ZSampleRows(xi: real, yi: real, batchSize: nat)
    ensures |ZSample(xi, yi, batchSize)| == batchSize
    ensures forall r :: 0 <= r < batchSize ==> ZSample(xi, yi, batchSize)[r] == [xi, yi]
  {
    var flat := TileFlat(xi, yi, batchSize);
    forall r | 0 <= r < batchSize
      ensures ZSample(xi, yi, batchSize)[r] == [xi, yi]
    {
      assert (2 * r) % 2 == 0 && (2 * r + 1) % 2 == 1;
      assert flat[2 * r..2 * r + 2] == [flat[2 * r], flat[2 * r + 1]];
    }
  }

  /** The decoder's output for a batch of latent points: one flattened image per point. */
  type Decoder = Matrix -> Matrix

  /** `x_decoded[0]` on an empty batch, or `reshape` on an output of the wrong size. */
  datatype ShapeError = IndexError | ReshapeError

  /** `.reshape(digit_size, digit_size)` of a flat vector of `digit_size * digit_size` values. */
  function ToSquare(v: seq<real>, ds: nat): (m: Matrix)
    requires |v| == ds * ds
    ensures IsMatrix(m, ds, ds)
  {
    if ds == 0 then [] else ChunksShape(v, ds, ds); Chunks(v, ds)
  }

  /**
   * The body of the grid loops for grid cell (i, j): the latent point is `[grid_y[j],
   * grid_x[i]]`, and only the first decoded output becomes the digit.
   */
  function Digit(decoder: Decoder, gridX: seq<real>, gridY: seq<real>, batchSize: nat, ds: nat,
                 i: nat, j: nat): (r: Result<Matrix, ShapeError>)
    requires i < |gridX| && j < |gridY|
    ensures r.Ok? ==> IsMatrix(r.value, ds, ds)
  {
    var decoded := decoder(ZSample(gridY[j], gridX[i], batchSize));
    if |decoded| == 0 then Err(IndexError)
    else if |decoded[0]| != ds * ds then Err(ReshapeError)
    else Ok(ToSquare(decoded[0], ds))
  }

  /** The digit is the first output, read row by row: entry (a, b) is value `a * digit_size + b`. */
  lemma DigitIsFirstOutput(decoder: Decoder, gridX: seq<real>, gridY: seq<real>, batchSize: nat, ds: nat,
                           i: nat, j: nat, a: nat, b: nat)
    requires i < |gridX| && j < |gridY| && a < ds && b < ds
    requires Digit(decoder, gridX, gridY, batchSize, ds, i, j).Ok?
    ensures var decoded := decoder(ZSample(gridY[j], gridX[i], batchSize));
      |decoded| > 0 && a * ds + b < |decoded[0]|
      && Digit(decoder, gridX, gridY, batchSize, ds, i, j).value[a][b] == decoded[0][a * ds + b]
  {
    var decoded := decoder(ZSample(gridY[j], gridX[i], batchSize));
    ChunkIndex(decoded[0], ds, ds, a, b);
  }

  // ---------------------------------------------------------------------
  // Tiles
  // ---------------------------------------------------------------------

  /** Block index and offset of a coordinate along one axis of the figure. */
  function Block(r: nat, ds: nat): nat
    requires ds > 0
  {
    r / ds
  }

  function Offset(r: nat, ds: nat): nat
    requires ds > 0
  {
    r % ds
  }

  /** Every coordinate of block i has block index i and offset `r - i * ds`. */
  lemma BlockOf(r: nat, i: nat, ds: nat)
    requires ds > 0 && i * ds <= r < (i + 1) * ds
    ensures Block(r, ds) == i && Offset(r, ds) == r - i * ds
  {
    var q, m := r / ds, r % ds;
    assert r == q * ds + m && 0 <= m < ds;
    if q < i {
      MulLeq(q + 1, i, ds);
      assert false;
    } else if q > i {
      MulLeq(i + 1, q, ds);
      assert false;
    }
  }

  /** Each coordinate lies in the block its block index names. */
  lemma InOwnBlock(r: nat, ds: nat)
    requires ds > 0
    ensures Block(r, ds) * ds <= r < (Block(r, ds) + 1) * ds
    ensures Offset(r, ds) == r - Block(r, ds) * ds
  {
  }

  /** Tiles of distinct grid cells share no figure cell. */
  lemma TilesDisjoint(ds: nat, i: nat, j: nat, i': nat, j': nat, r: nat, c: nat)
    requires ds > 0
    requires i * ds <= r < (i + 1) * ds && j * ds <= c < (j + 1) * ds
    requires i' * ds <= r < (i' + 1) * ds && j' * ds <= c < (j' + 1) * ds
    ensures i == i' && j == j'
  {
    BlockOf(r, i, ds);
    BlockOf(r, i', ds);
    BlockOf(c, j, ds);
    BlockOf(c, j', ds);
  }

  /** Tile (i, j) of the figure lies inside it. */
  lemma TileInside(n: nat, ds: nat, i: nat)
    requires i < n
    ensures (i + 1) * ds <= ds * n
  {
    MulLeq(i + 1, n, ds);
  }

  /** A coordinate of a figure of `ds * n` cells lies in one of its n blocks. */
  lemma BlockInRange(r: nat, ds: nat, n: nat)
    requires r < ds * n
    ensures ds > 0 && Block(r, ds) < n
  {
    if Block(r, ds) >= n {
      InOwnBlock(r, ds);
      MulLeq(n, Block(r, ds), ds);
    }
  }

  /** A coordinate lies in block i exactly when its block index is i, at offset `r - i * ds`. */
  lemma InBlockIff(r: nat, i: nat, ds: nat)
    requires ds > 0
    ensures (i * ds <= r < (i + 1) * ds) <==> Block(r, ds) == i
    ensures Block(r, ds) == i ==> Offset(r, ds) == r - i * ds
  {
    InOwnBlock(r, ds);
    if i * ds <= r < (i + 1) * ds {
      BlockOf(r, i, ds);
    }
  }

  /**
   * The slice assignment `figure[i*ds:(i+1)*ds, j*ds:(j+1)*ds] = digit` on a figure
   * of n x n tiles; every cell of tile (i, j) takes the digit's value at its
   * offset, every other cell keeps its value.
   */
  method WriteTile(figure: array2<real>, ds: nat, n: nat, i: nat, j: nat, digit: Matrix)
    requires IsMatrix(digit, ds, ds) && i < n && j < n
    requires figure.Length0 == ds * n && figure.Length1 == ds * n
    modifies figure
    ensures forall r, c :: 0 <= r < ds * n && 0 <= c < ds * n ==>
      ds > 0 && figure[r, c] == if Block(r, ds) == i && Block(c, ds) == j
                                then digit[Offset(r, ds)][Offset(c, ds)] else old(figure[r, c])
  {
    TileInside(n, ds, i);
    TileInside(n, ds, j);
    forall r, c | i * ds <= r < (i + 1) * ds && j * ds <= c < (j + 1) * ds {
      figure[r, c] := digit[r - i * ds][c - j * ds];
    }
    forall r, c | 0 <= r < ds * n && 0 <= c < ds * n
      ensures ds > 0 && figure[r, c] == if Block(r, ds) == i && Block(c, ds) == j
                                        then digit[Offset(r, ds)][Offset(c, ds)] else old(figure[r, c])
    {
      BlockInRange(r, ds, n);
      InBlockIff(r, i, ds);
      InBlockIff(c, j, ds);
    }
  }

  /** Tile (ti, tj) is written before the loops reach (i, j). */
  predicate Before(ti: nat, tj: nat, i: nat, j: nat) {
    ti < i || (ti == i && tj < j)
  }

  /** Every grid cell decodes to a digit of the right size. */
  predicate AllDecode(decoder: Decoder, gridX: seq<real>, gridY: seq<real>, batchSize: nat, ds: nat) {
    forall i, j :: 0 <= i < |gridX| && 0 <= j < |gridY| ==> Digit(decoder, gridX, gridY, batchSize, ds, i, j).Ok?
  }

  /** The value the digit of tile (i, j) gives to offset (a, b), 0 where that digit does not decode. */
  function DigitCell(decoder: Decoder, gridX: seq<real>, gridY: seq<real>, batchSize: nat, ds: nat,
                     i: nat, j: nat, a: nat, b: nat): real
    requires i < |gridX| && j < |gridY| && a < ds && b < ds
  {
    var d := Digit(decoder, gridX, gridY, batchSize, ds, i, j);
    if d.Ok? then d.value[a][b] else 0.0
  }

  /**
   * One pass of the inner grid loop: the tiles of grid row i, left to right,
   * stopping at the first digit that does not decode. Rows of tiles before i
   * are already written and the rest of the figure is still zero.
   */
  method WriteTileRow(figure: array2<real>, n: nat, ds: nat, i: nat,
                      gridX: seq<real>, gridY: seq<real>, batchSize: nat, decoder: Decoder)
    returns (r: Result<(), ShapeError>)
    requires |gridX| == n && |gridY| == n && i < n
    requires figure.Length0 == ds * n && figure.Length1 == ds * n
    requires forall row :: 0 <= row < ds * n ==> ds > 0 && Block(row, ds) < n
    requires forall row, col :: 0 <= row < ds * n && 0 <= col < ds * n ==>
      figure[row, col] == if Block(row, ds) < i
        then DigitCell(decoder, gridX, gridY, batchSize, ds, Block(row, ds), Block(col, ds), Offset(row, ds), Offset(col, ds))
        else 0.0
    modifies figure
    ensures r.Ok? <==> forall tj :: 0 <= tj < n ==> Digit(decoder, gridX, gridY, batchSize, ds, i, tj).Ok?
    ensures r.Ok? ==> forall row, col :: 0 <= row < ds * n && 0 <= col < ds * n ==>
      figure[row, col] == if Block(row, ds) <= i
        then DigitCell(decoder, gridX, gridY, batchSize, ds, Block(row, ds), Block(col, ds), Offset(row, ds), Offset(col, ds))
        else 0.0
  {
    var j := 0;
    while j < n
      invariant 0 <= j <= n
      invariant forall tj :: 0 <= tj < j ==> Digit(decoder, gridX, gridY, batchSize, ds, i, tj).Ok?
      invariant forall row, col :: 0 <= row < ds * n && 0 <= col < ds * n ==>
        figure[row, col] == if Before(Block(row, ds), Block(col, ds), i, j)
          then DigitCell(decoder, gridX, gridY, batchSize, ds, Block(row, ds), Block(col, ds), Offset(row, ds), Offset(col, ds))
          else 0.0
    {
      var digit := Digit(decoder, gridX, gridY, batchSize, ds, i, j);
      if digit.Err? {
        return Err(digit.error);
      }
      WriteTile(figure, ds, n, i, j, digit.value);
      j := j + 1;
    }
    r := Ok(());
  }

  /**
   * The grid loops: a zero figure of (digit_size * n) x (digit_size * n) cells,
   * with the digit of grid cell (i, j) written into tile (i, j). The figure is
   * returned exactly when every grid cell decodes; cell (row, col) then holds
   * entry (row % ds, col % ds) of the digit of tile (row / ds, col / ds).
   */
  method AssembleFigure(n: nat, ds: nat, gridX: seq<real>, gridY: seq<real>, batchSize: nat, decoder: Decoder)
    returns (r: Result<array2<real>, ShapeError>)
    requires |gridX| == n && |gridY| == n
    ensures r.Ok? <==> AllDecode(decoder, gridX, gridY, batchSize, ds)
    ensures r.Ok? ==> fresh(r.value) && r.value.Length0 == ds * n && r.value.Length1 == ds * n
    ensures r.Ok? ==> forall row, col :: 0 <= row < ds * n && 0 <= col < ds * n ==>
      ds > 0 && Block(row, ds) < n && Block(col, ds) < n
      && Digit(decoder, gridX, gridY, batchSize, ds, Block(row, ds), Block(col, ds)).Ok?
      && r.value[row, col] == DigitCell(decoder, gridX, gridY, batchSize, ds, Block(row, ds), Block(col, ds), Offset(row, ds), Offset(col, ds))
  {
    var figure := new real[ds * n, ds * n]((_, _) => 0.0);
    forall row | 0 <= row < ds * n
      ensures ds > 0 && Block(row, ds) < n
    {
      BlockInRange(row, ds, n);
    }
    var i := 0;
    while i < n
      invariant 0 <= i <= n && figure.Length0 == ds * n && figure.Length1 == ds * n
      invariant forall ti, tj :: 0 <= ti < i && 0 <= tj < n ==> Digit(decoder, gridX, gridY, batchSize, ds, ti, tj).Ok?
      invariant forall row, col :: 0 <= row < ds * n && 0 <= col < ds * n ==>
        figure[row, col] == if Block(row, ds) < i
          then DigitCell(decoder, gridX, gridY, batchSize, ds, Block(row, ds), Block(col, ds), Offset(row, ds), Offset(col, ds))
          else 0.0
    {
      var written := WriteTileRow(figure, n, ds, i, gridX, gridY, batchSize, decoder);
      if written.Err? {
        return Err(written.error);
      }
      i := i + 1;
    }
    r := Ok(figure);
  }
}
