# Deep-learning tutorial scripts: the hand-written kernels, in Dafny

The repository is a set of Keras and MXNet tutorial scripts. Most of it
declares layers and calls the frameworks. A few pieces of logic are written
out by hand in the scripts themselves. This project models those pieces and
proves what they compute:

- **Naive 2-D pooling** (`pool2d`): a `(h - p_h + 1) x (w - p_w + 1)` array
  filled with the window maximum or the window mean. Any other mode leaves
  it zero. Module `Pooling`.
- **Climate CSV loading and the sequential batch generator**. Module
  `ClimateCsv` splits the text into lines and fields and fills a
  `(lines - 1) x (fields - 1)` array with numpy's row-broadcast rule.
  Module `WindowGenerator` models the cursor state machine: consecutive row
  batches, the wrap back to `min_index + lookback`, stepped history windows
  and the target `delay` rows ahead.
- **Reuters encoders and decoders** (module `Reuters`):
  - the multi-hot `vectorize_sequences`;
  - `to_one_hot` as written, with its early `return`, and as intended;
  - the reverse word index and the offset-3 decoding with `'?'`;
  - the validation split.
- **Style-transfer bookkeeping** (module `StyleTransfer`). The `Evaluator`
  class caches one loss/gradient evaluation so that `loss` and `grads`
  strictly alternate. `deprocess_image` adds the channel means back in
  place, reverses the channels and clips to bytes.
- **Fine-tuning a convolutional base** (module `FineTune`). The
  `set_trainable` loop freezes every layer before the first layer with a
  given name. The script as written crashes first, on the `conv_base = True`
  rebinding.
- **Inverted dropout and the dropout MLP** (module `Dropout`), with the
  uniform samples given as inputs.
- **Latent-grid figure assembly** (module `LatentGrid`). Each decoded digit
  of an n x n grid of latent points is written into its own tile of one
  large figure.

The shared modules are:

- `Wrappers`: `Option` and `Result`.
- `Tensors`: matrices as sequences of rows, 2-D array contents, and chunking
  a flat sequence into rows, with the round trip back.
- `Text`: Python's `str.split` and `str.join` on one separator, with both
  round trips.

Floating-point values are modelled as `real`. Python exceptions are `Err`
values of a `Result`. Code that changes state in place stays imperative: an
array filled by loops, an object whose fields are reassigned, a layer flag
set on each layer. Each such method is proved against a pure specification
function, and the properties are lemmas about that function.

## Model

| member | source | states |
|---|---|---|
| Pooling.Pool2d | dive_into_DP/CNN/pooling.py:4-13 | The output has shape (rows - p_h + 1) x (cols - p_w + 1) and each cell holds the pooled value of its own window, as defined by `Pool`. |
| Pooling.Pool | dive_into_DP/CNN/pooling.py:5-6 | The pooled matrix has (rows - p_h + 1) rows of (cols - p_w + 1) cells. |
| Pooling.MaxPoolIsWindowMaximum | dive_into_DP/CNN/pooling.py:9-10 | In 'max' mode, Y[i][j] is at least every element of the p_h x p_w window at (i, j) and equals one of them. |
| Pooling.AvgPoolIsWindowMean | dive_into_DP/CNN/pooling.py:11-12 | In 'avg' mode, Y[i][j] is the sum of the p_h * p_w window elements divided by their count, so it lies between the window's minimum and maximum. |
| Pooling.UnknownModeIsZero | dive_into_DP/CNN/pooling.py:6-12 | Any mode other than 'max' and 'avg' leaves every output cell 0. |
| Pooling.PoolCellIsLocal | dive_into_DP/CNN/pooling.py:7-12 | An output cell depends only on its own window: two inputs that agree on the window give the same cell. |
| Pooling.WorkedExampleMax | dive_into_DP/CNN/pooling.py:15-16 | Max pooling of [[0,1,2],[3,4,5],[6,7,8]] with a (2,2) pool gives [[4,5],[7,8]]. |
| Pooling.WorkedExampleAvg | dive_into_DP/CNN/pooling.py:15-17 | Average pooling of the same input gives [[2,3],[5,6]]. |
| Pooling.MeanWithin | dive_into_DP/CNN/pooling.py:12 | The mean of a non-empty window lies within any bounds that hold for all its elements. |
| Text.Split | Chapter6/Chapter6.11_2_error.py:11-12 | `str.split` always returns at least one piece, and no piece contains the separator. |
| Text.SplitCount | Chapter6/Chapter6.11_2_error.py:11 | Splitting yields one more piece than there are separators. |
| Text.JoinSplit | Chapter4/Chapter4.1.py:7 | Joining the pieces of a split with the same separator gives back the string. |
| Text.SplitJoin | Chapter4/Chapter4.1.py:7 | Splitting a join of separator-free pieces gives back the pieces. |
| Text.Join | Chapter4/Chapter4.1.py:7 | `sep.join(parts)`: the pieces with one separator between each pair. `JoinSplit` and `SplitJoin` prove it inverse to `Split`. |
| ClimateCsv.RowFill | Chapter6/Chapter6.11_2_error.py:20 | Assigning the values to a row yields a row of exactly `cols` cells. This covers the broadcast of a single value. |
| ClimateCsv.Values | Chapter6/Chapter6.11_2_error.py:19 | The fields of a line after the first (the date column). `ParsedRow` states what a row then holds. |
| ClimateCsv.Parse | Chapter6/Chapter6.11_2_error.py:11-20 | The table the script builds: header from the first line, one row per later line filled by `RowFill`, or the broadcast error. `ParsedShape`, `ParsedRow` and `ParseFailsIff` state its shape, rows and failure condition. |
| ClimateCsv.ParseClimateCsv | Chapter6/Chapter6.11_2_error.py:11-20 | The loader succeeds exactly when `Parse` does. It then returns the header and a fresh array whose contents are `Parse`'s rows. |
| ClimateCsv.ParsedShape | Chapter6/Chapter6.11_2_error.py:11-17 | The header is the first line split at commas. The array has one row per remaining line and len(header) - 1 columns. |
| ClimateCsv.ParsedRow | Chapter6/Chapter6.11_2_error.py:18-20 | A line with as many fields as the header becomes its fields after the first. A line with two fields fills the whole row with its second field. |
| ClimateCsv.ParseFailsIff | Chapter6/Chapter6.11_2_error.py:18-20 | Loading fails exactly when some data line has neither len(header) - 1 values nor a single value. |
| ClimateCsv.TrailingNewlineFails | Chapter6/Chapter6.11_2_error.py:11-20 | With a header of two or more fields, a text ending in a newline fails. The empty last line has no values. |
| WindowGenerator.Generator.constructor | Chapter6/Chapter6.11_2_error.py:27-30 | `max_index` defaults to len(data) - delay - 1. The cursor starts at min_index + lookback. Any `step`, 0 included, is accepted. |
| WindowGenerator.ResolveMaxIndex | Chapter6/Chapter6.11_2_error.py:28-29 | `max_index`, or len(data) - delay - 1 when it is None. `DefaultTargetsInRange` proves the default keeps every target inside the data. |
| WindowGenerator.BatchRows | Chapter6/Chapter6.11_2_error.py:36-38 | The rows of the next batch: `arange(i, min(i + batch_size, max_index))` after the wrap to min_index + lookback. `BatchIsConsecutiveRun`, `RowsAtLeastOrigin` and `FullBatches` state its properties. |
| WindowGenerator.NextCursor | Chapter6/Chapter6.11_2_error.py:36-39 | The cursor after a batch: the batch start plus the number of rows. `CursorStaysInRange` proves it stays in range. |
| WindowGenerator.HistoryIndices | Chapter6/Chapter6.11_2_error.py:46 | `range(row - lookback, row, step)`. `HistoryCount`, `HistorySpacing` and `HistoryWithinLookback` state its length, spacing and bounds. |
| WindowGenerator.HistoryFits | Chapter6/Chapter6.11_2_error.py:41-47 | Whether `samples[j] = data[indices]` fits the lookback // step slot, directly or by broadcasting one row. `HistoryFitsIff` characterises it. |
| WindowGenerator.BatchOk | Chapter6/Chapter6.11_2_error.py:41-48 | Whether a batch is built without an exception: `step` is not 0 (`lookback // step` is evaluated even for an empty batch), the history fits, column 1 exists and every target row exists. `Next` and `FillBatch` yield exactly when it holds. |
| WindowGenerator.Generator.Next | Chapter6/Chapter6.11_2_error.py:35-49 | The cursor moves to `NextCursor`. A batch is yielded exactly when `BatchOk` holds for the batch's rows, and it is then filled with each row's history and target; otherwise the generator raises and stops. |
| WindowGenerator.FillBatch | Chapter6/Chapter6.11_2_error.py:41-48 | Fresh arrays of shape len(rows) x lookback//step x features and len(rows). Success exactly when `BatchOk` holds, so step 0 always fails; then samples[j] holds the data rows of `range(row - lookback, row, step)` and targets[j] is data[row + delay][1]. |
| WindowGenerator.CopyHistory | Chapter6/Chapter6.11_2_error.py:46-47 | Sample row j takes the listed data rows. Every other sample row is unchanged. |
| WindowGenerator.RowsAtLeastOrigin | Chapter6/Chapter6.11_2_error.py:36-38 | Every batch row is at least min_index + lookback. |
| WindowGenerator.BatchIsConsecutiveRun | Chapter6/Chapter6.11_2_error.py:36-38 | A batch is the consecutive run from its start, holds at most batch_size rows, and every row lies in [min_index + lookback, max_index). |
| WindowGenerator.FullBatches | Chapter6/Chapter6.11_2_error.py:36-38 | When min_index + lookback + batch_size < max_index, every batch holds exactly batch_size rows. |
| WindowGenerator.CursorStaysInRange | Chapter6/Chapter6.11_2_error.py:36-39 | After a batch the cursor is still at least min_index + lookback, and is either that origin or at most max_index. |
| WindowGenerator.DefaultTargetsInRange | Chapter6/Chapter6.11_2_error.py:28-29 | With the default max_index, every target row row + delay is inside the data. |
| WindowGenerator.HistoryCount | Chapter6/Chapter6.11_2_error.py:42-46 | The history has lookback//step indices when step divides lookback, and one more otherwise. |
| WindowGenerator.HistoryFitsIff | Chapter6/Chapter6.11_2_error.py:41-47 | The history fits into `samples[j]` exactly when step divides lookback or lookback < step. |
| WindowGenerator.HistoryWithinLookback | Chapter6/Chapter6.11_2_error.py:42-46 | The first lookback//step history offsets lie within the lookback window. |
| WindowGenerator.HistorySpacing | Chapter6/Chapter6.11_2_error.py:46 | The history starts at row - lookback, advances by step, and stays within [min_index, row). |
| Reuters.AxisIndex | Chapter4/Chapter4.1.py:16 | A numpy index is valid exactly in [-n, n). A valid index names position j, or j + n when j is negative. |
| Reuters.MultiHotMatrix | Chapter4/Chapter4.1.py:13-17 | The multi-hot matrix: len(sequences) rows of `dimension` cells, 1 where the row's sequence hits the column. `MultiHotIsIndicator` and `MultiHotIgnoresRepeats` state its meaning. |
| Reuters.VectorizeSequences | Chapter4/Chapter4.1.py:13-17 | Succeeds exactly when every index is valid for the dimension. It then returns a fresh len(sequences) x dimension array equal to `MultiHotMatrix`. |
| Reuters.MultiHotIsIndicator | Chapter4/Chapter4.1.py:13-17 | For indices in [0, dimension), entry c of a row is 1 iff c occurs in the sequence, and 0 iff it does not. |
| Reuters.MultiHotIgnoresRepeats | Chapter4/Chapter4.1.py:16 | Sequences with the same set of indices encode identically: repeats and order do not matter. |
| Reuters.OneHotAsWritten | Chapter4/Chapter4.1.py:22-26 | As written, the result, when there is one, has len(labels) rows of `dimension` cells. |
| Reuters.ToOneHotAsWritten | Chapter4/Chapter4.1.py:22-26 | The loop as written: it fails, returns None or returns an array exactly as `OneHotAsWritten` says, and the returned array is fresh. |
| Reuters.OneHotAsWrittenDropsLaterRows | Chapter4/Chapter4.1.py:24-26 | As written, for valid labels every row after the first is all zeros, and differs from the intended one-hot row. |
| Reuters.OneHotAsWrittenExample | Chapter4/Chapter4.1.py:22-26 | For labels [0, 1] and dimension 2, the script returns [[1,0],[0,0]] where [[1,0],[0,1]] was intended. |
| Reuters.OneHot | Chapter4/Chapter4.1.py:22-25 | The intended encoding succeeds exactly when every label lies in [-dimension, dimension), giving a len(labels) x dimension matrix. |
| Reuters.ToOneHot | Chapter4/Chapter4.1.py:22-25 | The corrected loop succeeds exactly when `OneHot` does, and fills a fresh array equal to it. |
| Reuters.OneHotIsSingleMultiHot | Chapter4/Chapter4.1.py:25 | A one-hot row is the multi-hot encoding of the one-element sequence [label]. |
| Reuters.OneHotRowsHaveOneOne | Chapter4/Chapter4.1.py:23-25 | Row i has a 1 exactly at the label's wrapped column and 0 everywhere else. |
| Reuters.ReverseIndexLastWins | Chapter4/Chapter4.1.py:6 | The reverse index has a key for every index and no other. Each key maps to the word of the last pair carrying it. |
| Reuters.ReverseOfInjective | Chapter4/Chapter4.1.py:6 | For an injective word index, reverse[word_index[w]] == w. |
| Reuters.ReverseIndex | Chapter4/Chapter4.1.py:6 | `dict([(value, key) ...])` over the items in order. `ReverseIndexLastWins` and `ReverseOfInjective` state its keys and values. |
| Reuters.DecodeTokenAt | Chapter4/Chapter4.1.py:6-7 | Against the word index itself, token k is the word of the last item whose index is ids[k] - 3, or '?' when no item has that index. |
| Reuters.ReservedDecodeToUnknown | Chapter4/Chapter4.1.py:7 | Ids 0, 1 and 2 always decode to '?', because word indices start at 1. |
| Reuters.DecodeTokens | Chapter4/Chapter4.1.py:7 | `reverse.get(i - 3, '?')` for each index, one token per index. `DecodeTokenAt`, `ReservedDecodeToUnknown` and `DecodeEncode` state what each token is. |
| Reuters.DecodeNewswire | Chapter4/Chapter4.1.py:7 | The tokens joined by single spaces. `DecodedTokensSplit` proves that splitting it at spaces gives the tokens back. |
| Reuters.DecodeEncode | Chapter4/Chapter4.1.py:6-7 | Encoding words with index + 3 and decoding them gives the words back, for an injective word index. |
| Reuters.DecodedTokensSplit | Chapter4/Chapter4.1.py:7 | The decoded newswire, split at spaces, is the token list, provided no word contains a space. |
| Reuters.SplitValidation | Chapter4/Chapter4.1.py:75-79 | The validation part followed by the training part is exactly the original, in order. The validation part holds min(n, len) rows. |
| Reuters.SplitKeepsPairs | Chapter4/Chapter4.1.py:75-79 | Splitting inputs and labels of equal length at the same point keeps each input with its label. |
| StyleTransfer.ToImage | Chapter8/Chapter8.3.py:108 | Reshaping a vector of h * w * 3 values gives an h x w x 3 image. |
| StyleTransfer.FlattenToImage | Chapter8/Chapter8.3.py:108-111 | Flattening the reshaped image gives the vector back. |
| StyleTransfer.Flatten | Chapter8/Chapter8.3.py:111 | `flatten()` of an image: an h x w image of 3 channels gives h * w * 3 values, row by row and pixel by pixel. `FlattenToImage` proves it inverse to the reshape. |
| StyleTransfer.Run | Chapter8/Chapter8.3.py:106-121 | Replaying a sequence of `loss`/`grads` calls: the final cache state, or None at the first failed assertion. `RunIffAlternates` and `TwoLossesFail` characterise it. |
| StyleTransfer.Evaluator.constructor | Chapter8/Chapter8.3.py:102-104 | A fresh evaluator caches neither a loss nor gradients. |
| StyleTransfer.Evaluator.Loss | Chapter8/Chapter8.3.py:106-114 | The assertion fails exactly when a loss is cached, and nothing changes then. Otherwise a vector of the wrong size fails the reshape. On success the cached loss equals the returned value and the cached gradients are the fetched gradients, flattened. |
| StyleTransfer.Evaluator.Grads | Chapter8/Chapter8.3.py:116-121 | Succeeds exactly when a loss is cached. It then returns the cached gradients and clears both caches. |
| StyleTransfer.RunIffAlternates | Chapter8/Chapter8.3.py:106-121 | A sequence of calls passes every assertion exactly when it alternates loss, grads, loss, … from the current state. Each call then flips the cache state, so after an odd number of calls the state is the opposite of the initial one. |
| StyleTransfer.TwoLossesFail | Chapter8/Chapter8.3.py:107 | Two consecutive `loss` calls fail on the second. |
| StyleTransfer.Clip | Chapter8/Chapter8.3.py:26 | The clipped value is in [0, 255], equal to the input inside that range and to the nearer bound outside it. |
| StyleTransfer.ToUint8 | Chapter8/Chapter8.3.py:26 | The byte lies in [0, 255] and is the clipped value truncated to an integer. |
| StyleTransfer.ToUint8OfByte | Chapter8/Chapter8.3.py:26 | A value that is already a byte is unchanged. |
| StyleTransfer.ToUint8Monotone | Chapter8/Chapter8.3.py:26 | Clipping and truncation preserve order. |
| StyleTransfer.Offset | Chapter8/Chapter8.3.py:22-24 | The mean added to channel k: 103.939, 116.779 and 123.68 for channels 0, 1 and 2. `DeprocessImage` adds it in place. |
| StyleTransfer.DeprocessImage | Chapter8/Chapter8.3.py:21-27 | Adds 103.939, 116.779 and 123.68 to channels 0, 1 and 2 of the caller's array in place. Fails exactly when there are fewer than three channels. Otherwise returns a fresh byte array whose channel k is the clipped, truncated channel (C - 1 - k). |
| FineTune.SetTrainable | Chapter5/fine_tune.py:23-30 | Every layer's flag is set to `TrainableFlags` of the layer names. |
| FineTune.FlagsFrom | Chapter5/fine_tune.py:23-30 | The flags the loop assigns from a carried `set_trainable` value on. `FlagsFromIffSeen` characterises them. |
| FineTune.TrainableFlags | Chapter5/fine_tune.py:23-30 | The flags from `set_trainable = False`. `FlagIffSeen`, `FlagsMonotone`, `FlagsSplitAtFirst` and `NoMatchFreezesAll` state which layers are trainable. |
| FineTune.FlagsFromIffSeen | Chapter5/fine_tune.py:23-30 | Starting from a carried value, flag k is on iff the value was already on or the name occurs among the first k + 1 layers. |
| FineTune.FlagIffSeen | Chapter5/fine_tune.py:23-30 | Layer k is trainable iff a layer at or before it carries the name. |
| FineTune.FlagsMonotone | Chapter5/fine_tune.py:23-27 | Once a layer is trainable, every later layer is too. |
| FineTune.FlagsSplitAtFirst | Chapter5/fine_tune.py:23-30 | Exactly the layers from the first one with the name onwards are trainable; all layers before it are frozen. |
| FineTune.NoMatchFreezesAll | Chapter5/fine_tune.py:23-30 | If no layer has the name, every layer is frozen. |
| FineTune.FreezeConvBase | Chapter5/fine_tune.py:23-30 | Succeeds exactly when `conv_base` is bound to a model, and then sets the flags as `SetTrainable` does. A boolean binding raises AttributeError. |
| FineTune.FineTuneAsWritten | Chapter5/fine_tune.py:21-24 | As written, the rebinding `conv_base = True` makes the loop raise AttributeError before any flag is set. |
| FineTune.FineTune | Chapter5/fine_tune.py:23-30 | Without the rebinding, the loop succeeds and sets each layer's flag to `TrainableFlags`. |
| FineTune.TypoFreezesEverything | Chapter5/fine_tune.py:25 | No VGG16 base layer is called 'blocks_conv1', so all 19 layers end up frozen. |
| FineTune.IntendedUnfreezesBlock5 | Chapter5/fine_tune.py:25-30 | With 'block5_conv1', exactly layers 15-18 are trainable: block 5's three convolutions and its pooling. |
| Dropout.Dropout | dive_into_DP/EX2_Middle_Complex_Net/DropOut.py:5-10 | Fails exactly when drop_prob is outside [0, 1]. Otherwise the result has the input's shape, and is all zeros when drop_prob is 1. |
| Dropout.DropoutKeepsAboveThreshold | dive_into_DP/EX2_Middle_Complex_Net/DropOut.py:9-10 | Below drop_prob 1, an entry is 0 when its sample is at most drop_prob and x / (1 - drop_prob) otherwise. It is non-zero iff its sample exceeds drop_prob and x is non-zero. |
| Dropout.DropoutKeepsSign | dive_into_DP/EX2_Middle_Complex_Net/DropOut.py:10 | Dropout keeps non-negative activations non-negative. |
| Dropout.DropoutDropsAll | dive_into_DP/EX2_Middle_Complex_Net/DropOut.py:9-10 | When every sample is at most drop_prob, the result is all zeros whatever the input. |
| Dropout.Relu | dive_into_DP/EX2_Middle_Complex_Net/DropOut.py:30 | ReLU output is non-negative and equals the input wherever the input is non-negative. |
| Dropout.MatMul | dive_into_DP/EX2_Middle_Complex_Net/DropOut.py:30 | `nd.dot(A, B)` of an n x k and a k x m matrix gives an n x m matrix. |
| Dropout.AddBias | dive_into_DP/EX2_Middle_Complex_Net/DropOut.py:30 | `A + b` with the bias broadcast over the rows keeps the shape. |
| Dropout.Hidden | dive_into_DP/EX2_Middle_Complex_Net/DropOut.py:30 | `(nd.dot(X, W) + b).relu()` keeps n rows and gives m units per row. `TrainingHiddenNonNegative` uses its ReLU. |
| Dropout.MaybeDrop | dive_into_DP/EX2_Middle_Complex_Net/DropOut.py:31-35 | Dropout on a hidden layer while training and nothing otherwise, keeping the shape. `EvalIgnoresSamples`, `TrainingDropsFirstLayer` and `TrainingDropsSecondLayer` state its effect inside `Net`. |
| Dropout.Net | dive_into_DP/EX2_Middle_Complex_Net/DropOut.py:28-36 | The network maps n rows of `inputs` values to n rows of `outputs` values. |
| Dropout.EvalIgnoresSamples | dive_into_DP/EX2_Middle_Complex_Net/DropOut.py:31-35 | Outside training, dropout is not applied and the result does not depend on the random samples. |
| Dropout.TrainingDropsFirstLayer | dive_into_DP/EX2_Middle_Complex_Net/DropOut.py:30-32 | While training, dropout runs on H1. When it drops every unit, the output does not depend on the input. |
| Dropout.TrainingDropsSecondLayer | dive_into_DP/EX2_Middle_Complex_Net/DropOut.py:33-36 | While training, dropout runs on H2. When it drops every unit, every output row is the output bias b3, whatever the input and the first samples. |
| Dropout.TrainingHiddenNonNegative | dive_into_DP/EX2_Middle_Complex_Net/DropOut.py:30-35 | While training, the hidden units fed to the output layer are non-negative. |
| LatentGrid.ZSampleRows | Chapter8/Chapter8.4.py:101-102 | The tiled latent batch has batch_size rows, each equal to [xi, yi]. |
| LatentGrid.ZSample | Chapter8/Chapter8.4.py:101-102 | `np.tile([[xi, yi]], batch_size).reshape(batch_size, 2)`. `ZSampleRows` states its rows. |
| LatentGrid.Digit | Chapter8/Chapter8.4.py:99-104 | The digit of grid cell (i, j) decodes [grid_y[j], grid_x[i]]. When it succeeds it is a digit_size x digit_size matrix. |
| LatentGrid.ToSquare | Chapter8/Chapter8.4.py:104 | Reshaping digit_size² values gives a digit_size x digit_size matrix. |
| LatentGrid.DigitIsFirstOutput | Chapter8/Chapter8.4.py:103-104 | Only the first decoded output is used: digit[a][b] is its value a * digit_size + b. |
| LatentGrid.TilesDisjoint | Chapter8/Chapter8.4.py:105-106 | The tiles of distinct grid cells share no figure cell. |
| LatentGrid.WriteTile | Chapter8/Chapter8.4.py:105-106 | Writing tile (i, j) sets exactly the cells in block (i, j) to the digit's entry at their offset. Every other cell is unchanged. |
| LatentGrid.WriteTileRow | Chapter8/Chapter8.4.py:100-106 | One pass of the inner loop over grid row i succeeds exactly when every digit of that row decodes. The tiles of rows up to i then hold their digits and the rest of the figure stays zero. |
| LatentGrid.AssembleFigure | Chapter8/Chapter8.4.py:93-106 | Returns a fresh (digit_size·n) x (digit_size·n) figure exactly when every grid cell decodes. Cell (r, c) then holds entry [r % ds][c % ds] of the digit of grid cell (r / ds, c / ds). |
| LatentGrid.DigitCell | Chapter8/Chapter8.4.py:104-106 | The pixel the digit of tile (i, j) gives to offset (a, b). `AssembleFigure` proves each figure cell holds it, and that the digit decodes. |

## Left out

- I/O is given as inputs: reading the CSV file, loading the datasets, loading and saving images, and plotting. The file's text, the sequences and the arrays are parameters.
- ClimateCsv.ParseClimateCsv: fields are kept as strings. `float()` parsing and its ValueError are not modelled, and neither is the mean/std normalisation of lines 22-25, which is floating-point arithmetic.
- WindowGenerator.Generator.Next: shuffle mode (random rows) is not modelled. Only the sequential mode is.
- WindowGenerator.Generator.Next: negative `data[...]` indices are not modelled. Rows never go below min_index + lookback, so the history never uses one. A `min_index` below 0 is excluded by its type.
- WindowGenerator.Generator.constructor: `lookback`, `delay` and `batch_size` are natural numbers, so the model says nothing about negative values. In the source, a negative `lookback` gives `np.zeros` a negative dimension on the first `next`. A negative `batch_size` yields empty batches forever. A negative `delay` reads targets at wrapped or earlier rows. A `step` of 0 is modelled: the first `next` raises ZeroDivisionError.
- Reuters: `reuters.load_data`, `get_word_index`, `to_categorical` and the model's training are framework calls. The default dimensions 10000 and 46 and the split size 1000 are parameters.
- StyleTransfer: the content, style and total-variation losses, the gradient graph and the L-BFGS driver are backend tensor operations. `fetch_loss_and_grads` is a function parameter of `Loss`.
- StyleTransfer.Evaluator.Grads: the unused argument `x` of `grads` is dropped.
- StyleTransfer.Evaluator.Loss: the `float64` conversion of the gradients is not modelled, because values are reals.
- StyleTransfer.DeprocessImage: the input is modelled as an array of reals, so floating-point rounding of the additions is not modelled.
- FineTune: building and compiling the model and `conv_base` itself (VGG16) are framework code. Layers are objects with a name and a flag. The VGG16 layer names are written out as a constant.
- FineTune.SetTrainable: the layers are required to be distinct objects, as a Keras model's layer list is.
- Dropout: the random uniform samples are a parameter, and the weights are given. Initialisation, `attach_grad` and training are left out.
- Dropout.Net: the `X.reshape((-1, num_inputs))` of line 29 is not modelled. The input is taken to have `num_inputs` columns already.
- Dropout.Net: floating-point rounding is not modelled, because values are reals.
- Pooling.Pool2d: pool sizes of 0, or larger than the input plus one, are excluded by its precondition, so the model says nothing about them. In the source, a size larger than the input plus one gives `nd.zeros` a negative dimension. A size of 0 with a mode other than 'max' and 'avg' never reads `X` and returns an (h + 1) x (w + 1) array of zeros. A size of 0 in 'max' or 'avg' mode reduces an empty window.
- Pooling: the `nn.MaxPool2D` calls of lines 19-31 are framework pooling with padding and strides.
- LatentGrid: the encoder, `sampling`, the VAE loss and its training are random sampling and float losses. The decoder, and the grid coordinates from `norm.ppf` and `linspace`, are inputs. `n` and `digit_size` (15 and 28) are parameters.

## Findings

| source | as written | input that shows it | evidently intended | confidence | as-written member | corrected member |
|---|---|---|---|---|---|---|
| Chapter4/Chapter4.1.py:24-26 | `return results` is inside the `for` loop, so only row 0 is set. An empty label list returns None. | labels [0, 1], dimension 2 gives [[1,0],[0,0]] | every row i has a 1 at column labels[i] ([[1,0],[0,1]]) | not executed | Reuters.OneHotAsWrittenDropsLaterRows | Reuters.ToOneHot |
| Chapter5/fine_tune.py:21-24 | `conv_base = True` rebinds the base before the loop, so `conv_base.layers` raises AttributeError. | any run of the script | loop over the pretrained base's layers | not executed | FineTune.FineTuneAsWritten | FineTune.FineTune |
| Chapter5/fine_tune.py:25 | compares with 'blocks_conv1', which no VGG16 layer is called, so every layer stays frozen | the VGG16 convolutional base | 'block5_conv1': block 5 trainable, the rest frozen | not executed | FineTune.TypoFreezesEverything | FineTune.IntendedUnfreezesBlock5 |
