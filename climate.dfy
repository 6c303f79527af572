/**
 * Reading the climate CSV into a table: the first line is the header, and
 * every later line keeps all of its comma-separated fields but the first
 * (the timestamp). Fields stay text here; their conversion to floats is not
 * part of this model.
 */
module ClimateCsv {
  import opened Wrappers
  import opened Text
  import opened Tensors

  /** The fields a data line contributes: all but its first. */
  function Values(line: string): seq<string> {
    Split(line, ',')[1..]
  }

  /**
   * What `float_data[i, :] = values` stores in a row of `cols` cells: the
   * values when there are `cols` of them, the single value repeated when there
   * is exactly one (numpy broadcasting), and nothing (an error) otherwise.
   */
  function RowFill(values: seq<string>, cols: nat): (r: Option<seq<string>>)
    ensures r.Some? ==> |r.value| == cols
  {
    if |values| == cols then Some(values)
    else if |values| == 1 then Some(seq(cols, _ => values[0]))
    else None
  }

  datatype Table = Table(header: seq<string>, rows: seq<seq<string>>)

  /** numpy cannot broadcast a line's values into its row. */
  datatype ParseError = BroadcastError

  predicate RowFits(lines: seq<string>, cols: nat, i: nat)
    requires i < |lines|
  {
    RowFill(Values(lines[i]), cols).Some?
  }

  predicate AllRowsFit(lines: seq<string>, cols: nat) {
    forall i :: 0 <= i < |lines| ==> RowFits(lines, cols, i)
  }

  /** The filled rows, one per line. */
  function FillRows(lines: seq<string>, cols: nat): (rows: seq<seq<string>>)
    requires AllRowsFit(lines, cols)
    ensures IsMatrix(rows, |lines|, cols)
  {
    seq(|lines|, i requires 0 <= i < |lines| && RowFits(lines, cols, i) => RowFill(Values(lines[i]), cols).value)
  }

  /** The file's lines, and the header's fields. */
  function Lines(text: string): seq<string> {
    Split(text, '\n')
  }

  function Header(text: string): seq<string> {
    Split(Lines(text)[0], ',')
  }

  /** A data line whose values numpy cannot put into a row of `cols` cells. */
  predicate Misfit(line: string, cols: nat) {
    |Values(line)| != cols && |Values(line)| != 1
  }

  /** The table the script builds from the file's text, or the error it stops with. */
  function Parse(text: string): Result<Table, ParseError> {
    var lines := Lines(text);
    var header := Header(text);
    var cols := |header| - 1;
    if AllRowsFit(lines[1..], cols) then Ok(Table(header, FillRows(lines[1..], cols)))
    else Err(BroadcastError)
  }

  /** What `ParseClimateCsv` returns: the header and the filled array. */
  datatype Loaded = Loaded(header: seq<string>, floatData: array2<string>)

  /**
   * The loading script: split the text into lines, take the header, allocate a
   * (lines - 1) x (header fields - 1) array and fill it row by row.
   */
  method ParseClimateCsv(text: string) returns (r: Result<Loaded, ParseError>)
    ensures r.Ok? <==> Parse(text).Ok?
    ensures r.Ok? ==> (fresh(r.value.floatData)
      && r.value.header == Parse(text).value.header
      && Cells(r.value.floatData) == Parse(text).value.rows)
  {
    var lines := Lines(text);
    var header := Header(text);
    lines := lines[1..];
    var cols := |header| - 1;
    var floatData := new string[|lines|, cols]((_, _) => "");
    var i := 0;
    while i < |lines|
      invariant 0 <= i <= |lines|
      invariant forall k :: 0 <= k < i ==> (RowFits(lines, cols, k)
        && forall c :: 0 <= c < cols ==> floatData[k, c] == RowFill(Values(lines[k]), cols).value[c])
    {
      var row := RowFill(Values(lines[i]), cols);
      if row.None? {
        assert !RowFits(lines, cols, i);
        return Err(BroadcastError);
      }
      forall c | 0 <= c < cols {
        floatData[i, c] := row.value[c];
      }
      i := i + 1;
    }
    r := Ok(Loaded(header, floatData));
    ghost var want := Parse(text).value.rows;
    assert forall k :: 0 <= k < |lines| ==> Cells(floatData)[k] == want[k];
  }

  // ---------------------------------------------------------------------
  // Properties of the parsed table
  // ---------------------------------------------------------------------

  /**
   * A parsed table has the first line's fields as header, one row per later
   * line, and one column fewer than the header.
   */
  lemma ParsedShape(text: string)
    requires Parse(text).Ok?
    ensures Parse(text).value.header == Split(Lines(text)[0], ',')
    ensures IsMatrix(Parse(text).value.rows, |Lines(text)| - 1, |Header(text)| - 1)
  {
  }

  /**
   * Row i of a parsed table is line i + 1 without its first field when that
   * line has as many fields as the header, and its one value repeated when it
   * has two fields.
   */
  lemma ParsedRow(text: string, i: nat)
    requires Parse(text).Ok?
    requires i < |Lines(text)| - 1
    ensures var fields := Split(Lines(text)[i + 1], ','); var t := Parse(text).value;
      && (|fields| == |t.header| ==> t.rows[i] == fields[1..])
      && (|fields| == 2 ==> forall c :: 0 <= c < |t.header| - 1 ==> t.rows[i][c] == fields[1])
  {
    var lines := Lines(text);
    assert lines[1..][i] == lines[i + 1];
  }

  /** Parsing fails exactly when some data line has neither one value nor one per column. */
  lemma ParseFailsIff(text: string)
    ensures Parse(text).Err? <==> exists i :: 1 <= i < |Lines(text)| && Misfit(Lines(text)[i], |Header(text)| - 1)
  {
    var lines := Lines(text);
    var data := lines[1..];
    var cols := |Header(text)| - 1;
    if Parse(text).Err? {
      assert !AllRowsFit(data, cols);
      var i :| 0 <= i < |data| && !RowFits(data, cols, i);
      assert data[i] == lines[i + 1];
      assert Misfit(lines[i + 1], cols);
    } else {
      assert AllRowsFit(data, cols);
      forall i | 1 <= i < |lines|
        ensures !Misfit(lines[i], cols)
      {
        assert data[i - 1] == lines[i];
        assert RowFits(data, cols, i - 1);
      }
    }
  }

  /**
   * A text ending in a newline has an empty last line, which has no values:
   * with a header of two or more fields the script stops on it.
   */
  lemma TrailingNewlineFails(body: string)
    requires |Header(body + "\n")| >= 2
    ensures Parse(body + "\n").Err?
  {
    var text := body + "\n";
    var lines := Lines(text);
    SplitLastEmpty(body);
    var last := |lines| - 1;
    assert last >= 1;
    assert lines[last] == "";
    assert Values(lines[last]) == [];
    assert Misfit(lines[last], |Header(text)| - 1);
    ParseFailsIff(text);
  }

  /** Splitting `body + "\n"` ends with an empty piece and has at least two pieces. */
  lemma {:induction false} SplitLastEmpty(body: string)
    ensures var ls := Split(body + "\n", '\n'); |ls| >= 2 && ls[|ls| - 1] == ""
  {
    if body == [] {
      assert Split("\n", '\n') == [""] + Split("", '\n');
    } else {
      SplitLastEmpty(body[1..]);
      assert (body + "\n")[1..] == body[1..] + "\n";
    }
  }
}

/**
 * The sequential mode of `generator`: a cursor walks consecutive batches of
 * rows in [min_index + lookback, max_index), wrapping back to the start, and
 * each row yields its `lookback`-long history sampled every `step` rows and
 * the target `delay` rows ahead.
 */
module WindowGenerator {
  import opened Wrappers
  import opened Tensors

  /** `max_index = None` stands for `len(data) - delay - 1`. */
  function ResolveMaxIndex(maxIndex: Option<int>, n: nat, delay: nat): int {
    match maxIndex
    case Some(m) => m
    case None => n - delay - 1
  }

  /** Where the cursor starts, and where it goes back to. */
  function Origin(minIndex: nat, lookback: nat): nat {
    minIndex + lookback
  }

  /** The first row of the next batch: back to the origin when `i + batch_size >= max_index`. */
  function BatchStart(i: int, minIndex: nat, lookback: nat, maxIndex: int, batchSize: nat): int {
    if i + batchSize >= maxIndex then Origin(minIndex, lookback) else i
  }

  function Min(a: int, b: int): int {
    if a <= b then a else b
  }

  /** `np.arange(lo, hi)`. */
  function Arange(lo: int, hi: int): seq<int> {
    seq(if hi > lo then hi - lo else 0, k => lo + k)
  }

  /** The rows of the batch drawn at cursor `i`: `np.arange(b, min(b + batch_size, max_index))`. */
  function BatchRows(i: int, minIndex: nat, lookback: nat, maxIndex: int, batchSize: nat): seq<int> {
    var b := BatchStart(i, minIndex, lookback, maxIndex, batchSize);
    Arange(b, Min(b + batchSize, maxIndex))
  }

  /** The cursor after that batch: `i += len(rows)` from the batch's start. */
  function NextCursor(i: int, minIndex: nat, lookback: nat, maxIndex: int, batchSize: nat): int {
    BatchStart(i, minIndex, lookback, maxIndex, batchSize) + |BatchRows(i, minIndex, lookback, maxIndex, batchSize)|
  }

  /** `range(row - lookback, row, step)`. */
  function HistoryIndices(row: int, lookback: nat, step: nat): seq<int>
    requires step >= 1
  {
    seq((lookback + step - 1) / step, k => row - lookback + k * step)
  }

  /**
   * Whether `samples[j] = data[indices]` fits: the history has `lookback // step`
   * rows, or a single row, which numpy broadcasts.
   */
  predicate HistoryFits(lookback: nat, step: nat)
    requires step >= 1
  {
    var n := (lookback + step - 1) / step;
    n == lookback / step || n == 1
  }

  /**
   * Whether a batch is produced rather than an exception raised: `lookback // step`
   * does not divide by zero (it is evaluated even for an empty batch), the history
   * fits, the data has a column 1, and every target row exists.
   */
  predicate BatchOk(rows: seq<int>, lookback: nat, step: nat, delay: nat, nRows: nat, nCols: nat) {
    && step >= 1
    && (rows == [] || (HistoryFits(lookback, step) && nCols >= 2 && forall j :: 0 <= j < |rows| ==> rows[j] + delay < nRows))
  }

  datatype Status = Yielded | Raised | Stopped

  /** A running sequential generator over `data` (rows x features). */
  class Generator {
    const data: array2<real>
    const lookback: nat
    const delay: nat
    const minIndex: nat
    const maxIndex: int
    const batchSize: nat
    const step: nat
    /** The cursor `i`. */
    var cursor: int
    /** Set once the generator raised: a finished generator yields nothing more. */
    var stopped: bool

    ghost predicate Valid()
      reads this
    {
      && Origin(minIndex, lookback) <= cursor
      && (cursor == Origin(minIndex, lookback) || cursor <= maxIndex)
    }

    /** The start of `generator`: resolve `max_index` and start the cursor at `min_index + lookback`. */
    constructor (data: array2<real>, lookback: nat, delay: nat, minIndex: nat, maxIndex: Option<int>,
                 batchSize: nat, step: nat)
      ensures Valid() && !stopped
      ensures this.data == data && this.lookback == lookback && this.delay == delay
      ensures this.minIndex == minIndex && this.batchSize == batchSize && this.step == step
      ensures this.maxIndex == ResolveMaxIndex(maxIndex, data.Length0, delay)
      ensures cursor == Origin(minIndex, lookback)
    {
      this.data := data;
      this.lookback := lookback;
      this.delay := delay;
      this.minIndex := minIndex;
      this.maxIndex := ResolveMaxIndex(maxIndex, data.Length0, delay);
      this.batchSize := batchSize;
      this.step := step;
      cursor := minIndex + lookback;
      stopped := false;
    }

    /**
     * One `next()` of `generator` in sequential mode: move the cursor past the
     * next batch, then build `samples` (rows x lookback // step x features)
     * and `targets` (column 1, `delay` rows ahead); an exception ends the
     * generator.
     */
    method Next() returns (status: Status, samples: array3<real>, targets: array<real>)
      requires Valid()
      modifies this
      ensures Valid() && fresh(samples) && fresh(targets)
      ensures old(stopped) ==> status == Stopped && stopped && cursor == old(cursor)
      ensures !old(stopped) ==>
        var rows := BatchRows(old(cursor), minIndex, lookback, maxIndex, batchSize);
        && cursor == NextCursor(old(cursor), minIndex, lookback, maxIndex, batchSize)
        && (status == Yielded <==> BatchOk(rows, lookback, step, delay, data.Length0, data.Length1))
        && (status == Yielded ==> !stopped && step >= 1 && Filled(samples, targets, data, rows, lookback, step, delay, |rows|))
        && (status != Yielded ==> status == Raised && stopped)
    {
      if stopped {
        status := Stopped;
        samples := new real[0, 0, 0];
        targets := new real[0];
        return;
      }
      var b := if cursor + batchSize >= maxIndex then minIndex + lookback else cursor;
      var rows := Arange(b, Min(b + batchSize, maxIndex));
      assert rows == BatchRows(cursor, minIndex, lookback, maxIndex, batchSize);
      RowsAtLeastOrigin(cursor, minIndex, lookback, maxIndex, batchSize);
      CursorStaysInRange(cursor, minIndex, lookback, maxIndex, batchSize);
      cursor := b + |rows|;
      var ok;
      ok, samples, targets := FillBatch(data, rows, lookback, step, delay);
      if ok {
        status := Yielded;
      } else {
        status := Raised;
        stopped := true;
      }
    }
  }

  /**
   * Row j of `samples` holds the data rows listed in `h`: `samples[j, k, f]`
   * is feature f of data row `h[k]`.
   */
  ghost predicate SampleRow(samples: array3<real>, data: array2<real>, h: seq<int>, j: int)
    reads samples, data
  {
    && 0 <= j < samples.Length0
    && forall k, f :: 0 <= k < samples.Length1 && 0 <= f < samples.Length2 ==>
         && k < |h| && 0 <= h[k] < data.Length0 && f < data.Length1
         && samples[j, k, f] == data[h[k], f]
  }

  /** `targets[j]` is column 1 of the data row `delay` after `row`. */
  ghost predicate TargetAt(targets: array<real>, data: array2<real>, row: int, delay: nat, j: int)
    reads targets, data
  {
    && 0 <= j < targets.Length
    && 0 <= row + delay < data.Length0 && 1 < data.Length1
    && targets[j] == data[row + delay, 1]
  }

  /**
   * Entries [0, upto) of a batch of the given rows hold, for each row, its
   * history and its target, and the arrays have the batch's shape.
   */
  ghost predicate Filled(samples: array3<real>, targets: array<real>, data: array2<real>,
                         rows: seq<int>, lookback: nat, step: nat, delay: nat, upto: nat)
    requires step >= 1
    reads samples, targets, data
  {
    && upto <= |rows|
    && samples.Length0 == |rows| && samples.Length1 == lookback / step && samples.Length2 == data.Length1
    && targets.Length == |rows|
    && (forall j :: 0 <= j < upto ==> SampleRow(samples, data, HistoryIndices(rows[j], lookback, step), j))
    && (forall j :: 0 <= j < upto ==> TargetAt(targets, data, rows[j], delay, j))
  }

  /** The `for j, row in enumerate(rows)` loop of `generator` over the rows of one batch. */
  method FillBatch(data: array2<real>, rows: seq<int>, lookback: nat, step: nat, delay: nat)
    returns (ok: bool, samples: array3<real>, targets: array<real>)
    requires forall j :: 0 <= j < |rows| ==> lookback <= rows[j]
    ensures fresh(samples) && fresh(targets)
    ensures ok <==> BatchOk(rows, lookback, step, delay, data.Length0, data.Length1)
    ensures ok ==> step >= 1 && Filled(samples, targets, data, rows, lookback, step, delay, |rows|)
  {
    if step == 0 {
      // ZeroDivisionError at `lookback // step`, before any row is read.
      samples := new real[0, 0, 0];
      targets := new real[0];
      return false, samples, targets;
    }
    samples := new real[|rows|, lookback / step, data.Length1]((_, _, _) => 0.0);
    targets := new real[|rows|](_ => 0.0);
    HistoryWithinLookback(lookback, step);
    var j := 0;
    while j < |rows|
      invariant 0 <= j <= |rows|
      invariant j > 0 ==> HistoryFits(lookback, step) && data.Length1 >= 2
      invariant forall i :: 0 <= i < j ==> rows[i] + delay < data.Length0
      invariant Filled(samples, targets, data, rows, lookback, step, delay, j)
    {
      var indices := HistoryIndices(rows[j], lookback, step);
      var n := (lookback + step - 1) / step;
      if !(n == lookback / step || n == 1) || data.Length1 < 2 || rows[j] + delay >= data.Length0 {
        return false, samples, targets;
      }
      forall k | 0 <= k < lookback / step
        ensures 0 <= indices[k] < data.Length0
      {
        HistoryOffset(lookback, step, k);
      }
      CopyHistory(samples, data, indices, j);
      targets[j] := data[rows[j] + delay, 1];
      j := j + 1;
    }
    ok := true;
  }

  /** `samples[j] = data[indices]` when `indices` has one entry per history slot. */
  method CopyHistory(samples: array3<real>, data: array2<real>, h: seq<int>, j: int)
    requires 0 <= j < samples.Length0 && samples.Length1 <= |h| && samples.Length2 == data.Length1
    requires forall k :: 0 <= k < samples.Length1 ==> 0 <= h[k] < data.Length0
    modifies samples
    ensures SampleRow(samples, data, h, j)
    ensures forall i, k, f :: 0 <= i < samples.Length0 && i != j && 0 <= k < samples.Length1 && 0 <= f < samples.Length2 ==>
      samples[i, k, f] == old(samples[i, k, f])
  {
    forall k, f | 0 <= k < samples.Length1 && 0 <= f < samples.Length2 {
      samples[j, k, f] := data[h[k], f];
    }
  }

  // ---------------------------------------------------------------------
  // Properties of the cursor and the index arithmetic
  // ---------------------------------------------------------------------

  /** Every batch row lies at or after the origin, given a cursor at or after it. */
  lemma RowsAtLeastOrigin(i: int, minIndex: nat, lookback: nat, maxIndex: int, batchSize: nat)
    requires Origin(minIndex, lookback) <= i
    ensures forall j :: 0 <= j < |BatchRows(i, minIndex, lookback, maxIndex, batchSize)| ==>
      Origin(minIndex, lookback) <= BatchRows(i, minIndex, lookback, maxIndex, batchSize)[j]
  {
  }

  /**
   * A batch is the consecutive run of rows from its start, at most
   * `batch_size` long, within [min_index + lookback, max_index).
   */
  lemma BatchIsConsecutiveRun(i: int, minIndex: nat, lookback: nat, maxIndex: int, batchSize: nat)
    requires Origin(minIndex, lookback) <= i
    ensures var rows := BatchRows(i, minIndex, lookback, maxIndex, batchSize);
      var b := BatchStart(i, minIndex, lookback, maxIndex, batchSize);
      && |rows| <= batchSize
      && (forall j :: 0 <= j < |rows| ==> rows[j] == b + j)
      && (forall j :: 0 <= j < |rows| ==> Origin(minIndex, lookback) <= rows[j] < maxIndex)
  {
  }

  /** A batch holds exactly `batch_size` rows whenever one fits after the origin. */
  lemma FullBatches(i: int, minIndex: nat, lookback: nat, maxIndex: int, batchSize: nat)
    requires Origin(minIndex, lookback) + batchSize < maxIndex
    ensures |BatchRows(i, minIndex, lookback, maxIndex, batchSize)| == batchSize
  {
  }

  /**
   * The cursor moves past the rows it emitted and stays at the origin or at
   * most `max_index`; it never falls below the origin.
   */
  lemma CursorStaysInRange(i: int, minIndex: nat, lookback: nat, maxIndex: int, batchSize: nat)
    requires Origin(minIndex, lookback) <= i
    requires i == Origin(minIndex, lookback) || i <= maxIndex
    ensures var c := NextCursor(i, minIndex, lookback, maxIndex, batchSize);
      && Origin(minIndex, lookback) <= c
      && (c == Origin(minIndex, lookback) || c <= maxIndex)
  {
  }

  /** With the default `max_index`, every target row `row + delay` is inside the data. */
  lemma DefaultTargetsInRange(n: nat, delay: nat, i: int, minIndex: nat, lookback: nat, batchSize: nat)
    ensures var rows := BatchRows(i, minIndex, lookback, ResolveMaxIndex(None, n, delay), batchSize);
      forall j :: 0 <= j < |rows| ==> rows[j] + delay < n
  {
  }

  /** `a * s <= n < a * s + s` pins down `n / s`. */
  lemma DivBetween(n: nat, s: nat, a: nat)
    requires s > 0 && a * s <= n < a * s + s
    ensures n / s == a
  {
    var q, r := n / s, n % s;
    assert n == q * s + r && 0 <= r < s;
    if q < a {
      MulLeq(q + 1, a, s);
      assert false;
    } else if q > a {
      MulLeq(a + 1, q, s);
      assert false;
    }
  }

  /**
   * The history has `ceil(lookback / step)` entries: exactly `lookback // step`
   * when `step` divides `lookback`, one more otherwise.
   */
  lemma HistoryCount(lookback: nat, step: nat)
    requires step >= 1
    ensures (lookback + step - 1) / step == lookback / step + (if lookback % step == 0 then 0 else 1)
    ensures (lookback + step - 1) / step == lookback / step <==> lookback % step == 0
  {
    var q, r := lookback / step, lookback % step;
    assert lookback == q * step + r;
    if r == 0 {
      DivBetween(lookback + step - 1, step, q);
    } else {
      assert (q + 1) * step == q * step + step;
      DivBetween(lookback + step - 1, step, q + 1);
    }
  }

  /** `samples[j] = data[indices]` fits exactly when `step` divides `lookback` or `lookback < step`. */
  lemma HistoryFitsIff(lookback: nat, step: nat)
    requires step >= 1
    ensures HistoryFits(lookback, step) <==> lookback % step == 0 || lookback < step
  {
    HistoryCount(lookback, step);
    var q := lookback / step;
    if lookback < step {
      DivBetween(lookback, step, 0);
    } else {
      DivBetween(lookback - step, step, q - 1) by {
        assert lookback == q * step + lookback % step;
        assert q >= 1;
        assert (q - 1) * step == q * step - step;
      }
    }
  }

  /** The `lookback // step` leading history entries all lie within the lookback. */
  lemma HistoryWithinLookback(lookback: nat, step: nat)
    requires step >= 1
    ensures lookback / step <= (lookback + step - 1) / step
    ensures forall k :: 0 <= k < lookback / step ==> 0 <= k * step < lookback
  {
    HistoryCount(lookback, step);
    forall k | 0 <= k < lookback / step
      ensures 0 <= k * step < lookback
    {
      var q := lookback / step;
      assert k + 1 <= q;
      assert (k + 1) * step <= q * step;
      assert q * step <= lookback;
    }
  }

  /** Every history offset `k * step` lies in [0, lookback). */
  lemma HistoryOffset(lookback: nat, step: nat, k: int)
    requires step >= 1 && 0 <= k < (lookback + step - 1) / step
    ensures 0 <= k * step < lookback
  {
    var n := (lookback + step - 1) / step;
    assert n * step <= lookback + step - 1 by {
      assert n * step + (lookback + step - 1) % step == lookback + step - 1;
    }
    assert k * step <= (n - 1) * step;
    assert (n - 1) * step == n * step - step;
  }

  /**
   * The history of a row starts `lookback` rows back, is spaced by `step`, stays
   * before the row, and (for rows at or after the origin) at or after `min_index`.
   */
  lemma HistorySpacing(row: int, lookback: nat, step: nat, minIndex: nat)
    requires step >= 1 && Origin(minIndex, lookback) <= row
    ensures var h := HistoryIndices(row, lookback, step);
      && (|h| > 0 ==> h[0] == row - lookback)
      && (forall k :: 0 <= k < |h| - 1 ==> h[k + 1] == h[k] + step)
      && (forall k :: 0 <= k < |h| ==> minIndex <= h[k] < row)
  {
    var h := HistoryIndices(row, lookback, step);
    forall k | 0 <= k < |h| - 1
      ensures h[k + 1] == h[k] + step
    {
      assert (k + 1) * step == k * step + step;
    }
    forall k | 0 <= k < |h|
      ensures minIndex <= h[k] < row
    {
      HistoryOffset(lookback, step, k);
    }
  }
}
