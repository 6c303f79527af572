/**
 * The bookkeeping around neural style transfer: the `Evaluator` that caches
 * one loss/gradient evaluation so that the optimiser can ask for the loss and
 * then the gradients, and `deprocess_image`, which turns the optimised array
 * back into 8-bit pixels.
 */
module StyleTransfer {
  import opened Wrappers
  import opened Tensors

  /** A height x width x channels image. */
  type Image = seq<seq<seq<real>>>

  predicate IsImage<T>(img: seq<seq<seq<T>>>, h: nat, w: nat, c: nat) {
    |img| == h && forall i :: 0 <= i < h ==> |img[i]| == w && forall j :: 0 <= j < w ==> |img[i][j]| == c
  }

  // ---------------------------------------------------------------------
  // Reshaping a flat vector into an image and back
  // ---------------------------------------------------------------------

  /** `x.reshape((height, width, 3))`: rows of `width` pixels of 3 channels. */
  function ToImage(x: seq<real>, h: nat, w: nat): (img: Image)
    requires |x| == h * w * 3
    ensures IsImage(img, h, w, 3)
  {
    if w == 0 then seq(h, _ => [])
    else
      ChunksShape(x, h * w, 3);
      ChunksShape(Chunks(x, 3), h, w);
      ChunkMembers(Chunks(x, 3), w);
      Chunks(Chunks(x, 3), w)
  }

  /** `flatten()`: every channel value, row by row and pixel by pixel. */
  function Flatten(img: Image): (v: seq<real>)
    ensures forall h: nat, w: nat :: IsImage(img, h, w, 3) ==> |v| == h * w * 3
  {
    FlattenSize(img);
    Concat(Concat(img))
  }

  /** An h x w image of 3 channels has h * w pixels and h * w * 3 values. */
  lemma FlattenSize(img: Image)
    ensures forall h: nat, w: nat :: IsImage(img, h, w, 3) ==> |Concat(Concat(img))| == h * w * 3
  {
    forall h: nat, w: nat | IsImage(img, h, w, 3)
      ensures |Concat(Concat(img))| == h * w * 3
    {
      ConcatLength(img, w);
      var pixels := Concat(img);
      forall k | 0 <= k < |pixels|
        ensures |pixels[k]| == 3
      {
        ConcatFrom(img, pixels[k]);
      }
      ConcatLength(pixels, 3);
    }
  }

  /** Reshaping and flattening again gives the vector back. */
  lemma FlattenToImage(x: seq<real>, h: nat, w: nat)
    requires |x| == h * w * 3
    ensures Flatten(ToImage(x, h, w)) == x
  {
    if w == 0 {
      ConcatOfEmpties(ToImage(x, h, w));
    } else {
      ConcatChunks(Chunks(x, 3), w);
      ConcatChunks(x, 3);
    }
  }

  // ---------------------------------------------------------------------
  // The Evaluator
  // ---------------------------------------------------------------------

  /** `assert` failing in `loss` or `grads`; `reshape` failing on a vector of the wrong size. */
  datatype EvalError = AssertionError | ReshapeError

  datatype Call = LossCall | GradsCall

  /** Whether a call passes its assertion, given whether a loss is cached. */
  predicate Permits(cached: bool, call: Call) {
    match call
    case LossCall => !cached
    case GradsCall => cached
  }

  /** Whether a loss is cached after a call that passed its assertion. */
  function After(cached: bool, call: Call): bool {
    call == LossCall
  }

  /** Replaying calls from a cache state: the final state, or None at the first failed assertion. */
  function Run(cached: bool, calls: seq<Call>): Option<bool>
    decreases |calls|
  {
    if calls == [] then Some(cached)
    else if !Permits(cached, calls[0]) then None
    else Run(After(cached, calls[0]), calls[1..])
  }

  /** Calls alternate, the first being `loss` when nothing is cached and `grads` otherwise. */
  predicate AlternatesFrom(cached: bool, calls: seq<Call>) {
    forall k :: 0 <= k < |calls| ==> calls[k] == if (k % 2 == 0) != cached then LossCall else GradsCall
  }

  /**
   * A sequence of calls passes every assertion exactly when it alternates
   * loss, grads, loss, ... from the initial state; a loss is left cached
   * exactly when the sequence ends with a `loss`.
   */
  lemma {:induction false} RunIffAlternates(cached: bool, calls: seq<Call>)
    ensures Run(cached, calls).Some? <==> AlternatesFrom(cached, calls)
    ensures Run(cached, calls).Some? ==> Run(cached, calls).value == ((|calls| % 2 == 1) != cached)
    decreases |calls|
  {
    if calls != [] {
      var next := After(cached, calls[0]);
      RunIffAlternates(next, calls[1..]);
      if Permits(cached, calls[0]) {
        assert next == !cached;
        if AlternatesFrom(next, calls[1..]) {
          forall k | 0 <= k < |calls|
            ensures calls[k] == if (k % 2 == 0) != cached then LossCall else GradsCall
          {
            if k > 0 {
              assert calls[k] == calls[1..][k - 1];
            }
          }
        }
        if AlternatesFrom(cached, calls) {
          forall k | 0 <= k < |calls[1..]|
            ensures calls[1..][k] == if (k % 2 == 0) != next then LossCall else GradsCall
          {
            assert calls[1..][k] == calls[k + 1];
          }
        }
      } else {
        assert !AlternatesFrom(cached, calls) by {
          assert calls[0] != if (0 % 2 == 0) != cached then LossCall else GradsCall;
        }
      }
    }
  }

  /** Two `loss` calls in a row fail on the second, whatever the state. */
  lemma TwoLossesFail(cached: bool, rest: seq<Call>)
    ensures Run(cached, [LossCall, LossCall] + rest) == None
  {
    var calls := [LossCall, LossCall] + rest;
    assert calls[1..] == [LossCall] + rest;
    assert ([LossCall] + rest)[1..] == rest;
  }

  class Evaluator {
    /** `img_height` and `img_width`. */
    const height: nat
    const width: nat
    var lossValue: Option<real>
    var gradsValues: Option<seq<real>>

    /** Both caches are set together and cleared together. */
    ghost predicate Valid()
      reads this
    {
      lossValue.None? <==> gradsValues.None?
    }

    /** `__init__`: nothing cached. */
    constructor (height: nat, width: nat)
      ensures Valid()
      ensures this.height == height && this.width == width
      ensures lossValue == None && gradsValues == None
    {
      this.height := height;
      this.width := width;
      lossValue := None;
      gradsValues := None;
    }

    /**
     * `loss(x)`: assert that no loss is cached, reshape `x` to an image,
     * evaluate the loss and gradients with `fetch`, and cache the loss and the
     * flattened gradients.
     */
    method Loss(x: seq<real>, fetch: Image -> (real, Image)) returns (r: Result<real, EvalError>)
      requires Valid()
      modifies this
      ensures Valid()
      ensures r != Err(AssertionError) <==> Permits(old(lossValue).Some?, LossCall)
      ensures r.Err? ==> lossValue == old(lossValue) && gradsValues == old(gradsValues)
      ensures r.Ok? ==> lossValue.Some? == After(old(lossValue).Some?, LossCall)
      ensures old(lossValue).None? ==> (r.Ok? <==> |x| == height * width * 3)
      ensures r.Ok? ==>
        var outs := fetch(ToImage(x, height, width));
        && r.value == outs.0
        && lossValue == Some(outs.0)
        && gradsValues == Some(Flatten(outs.1))
    {
      if lossValue.Some? {
        return Err(AssertionError);
      }
      if |x| != height * width * 3 {
        return Err(ReshapeError);
      }
      var image := ToImage(x, height, width);
      var outs := fetch(image);
      lossValue := Some(outs.0);
      gradsValues := Some(Flatten(outs.1));
      r := Ok(outs.0);
    }

    /**
     * `grads(x)`: assert that a loss is cached, return a copy of the cached
     * gradients and clear both caches.
     */
    method Grads() returns (r: Result<seq<real>, EvalError>)
      requires Valid()
      modifies this
      ensures Valid()
      ensures r.Ok? <==> Permits(old(lossValue).Some?, GradsCall)
      ensures r.Err? ==> r.error == AssertionError && lossValue == old(lossValue) && gradsValues == old(gradsValues)
      ensures r.Ok? ==> r.value == old(gradsValues).value && lossValue == None && gradsValues == None
      ensures r.Ok? ==> lossValue.Some? == After(old(lossValue).Some?, GradsCall)
    {
      if lossValue.None? {
        return Err(AssertionError);
      }
      r := Ok(gradsValues.value);
      lossValue := None;
      gradsValues := None;
    }
  }

  // ---------------------------------------------------------------------
  // deprocess_image
  // ---------------------------------------------------------------------

  /** numpy raises IndexError when the image has fewer than three channels. */
  datatype IndexError = IndexError

  /** The mean added back to channel k (the BGR means of the ImageNet images). */
  function Offset(k: int): real {
    if k == 0 then 103.939 else if k == 1 then 116.779 else if k == 2 then 123.68 else 0.0
  }

  /** `np.clip(v, 0, 255)`. */
  function Clip(v: real): (r: real)
    ensures 0.0 <= r <= 255.0
    ensures 0.0 <= v <= 255.0 ==> r == v
    ensures v < 0.0 ==> r == 0.0
    ensures v > 255.0 ==> r == 255.0
  {
    if v < 0.0 then 0.0 else if v > 255.0 then 255.0 else v
  }

  /** `astype('uint8')` after the clip: the clipped value truncated to an integer. */
  function ToUint8(v: real): (r: int)
    ensures 0 <= r <= 255
    ensures r as real <= Clip(v) < r as real + 1.0
  {
    Clip(v).Floor
  }

  /** A value that is already a byte survives the clip and the truncation. */
  lemma ToUint8OfByte(n: int)
    requires 0 <= n <= 255
    ensures ToUint8(n as real) == n
  {
  }

  /** Clipping and truncating never reorder values. */
  lemma ToUint8Monotone(u: real, v: real)
    requires u <= v
    ensures ToUint8(u) <= ToUint8(v)
  {
    assert Clip(u) <= Clip(v);
  }

  /**
   * `deprocess_image(x)`: add the channel means back into the caller's array (channel
   * 0, then 1, then 2, stopping at the first missing one), then return a new
   * array of bytes with the channel order reversed.
   */
  method DeprocessImage(x: array3<real>) returns (r: Result<array3<int>, IndexError>)
    modifies x
    ensures forall i, j, k :: 0 <= i < x.Length0 && 0 <= j < x.Length1 && 0 <= k < x.Length2 ==>
      x[i, j, k] == old(x[i, j, k]) + Offset(k)
    ensures r.Ok? <==> x.Length2 >= 3
    ensures r.Ok? ==> (fresh(r.value)
      && r.value.Length0 == x.Length0 && r.value.Length1 == x.Length1 && r.value.Length2 == x.Length2
      && forall i, j, k :: 0 <= i < x.Length0 && 0 <= j < x.Length1 && 0 <= k < x.Length2 ==>
           r.value[i, j, k] == ToUint8(x[i, j, x.Length2 - 1 - k]))
  {
    var c := 0;
    while c < 3
      invariant 0 <= c <= 3 && c <= x.Length2
      invariant forall i, j, k :: 0 <= i < x.Length0 && 0 <= j < x.Length1 && 0 <= k < x.Length2 ==>
        x[i, j, k] == old(x[i, j, k]) + (if k < c then Offset(k) else 0.0)
    {
      if x.Length2 <= c {
        return Err(IndexError);
      }
      forall i, j | 0 <= i < x.Length0 && 0 <= j < x.Length1 {
        x[i, j, c] := x[i, j, c] + Offset(c);
      }
      c := c + 1;
    }
    var y := new int[x.Length0, x.Length1, x.Length2];
    forall i, j, k | 0 <= i < x.Length0 && 0 <= j < x.Length1 && 0 <= k < x.Length2 {
      y[i, j, k] := ToUint8(x[i, j, x.Length2 - 1 - k]);
    }
    r := Ok(y);
  }
}
