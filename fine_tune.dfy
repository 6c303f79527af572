/**
 * Fine-tuning a pretrained convolutional base: every layer before the first
 * one with a given name is frozen, and that layer and every later one is made
 * trainable.
 */
module FineTune {
  import opened Wrappers

  /** A layer of the network: its name is fixed, its `trainable` flag is set in place. */
  class Layer {
    const name: string
    var trainable: bool

    constructor (name: string, trainable: bool)
      ensures this.name == name && this.trainable == trainable
    {
      this.name := name;
      this.trainable := trainable;
    }
  }

  function Names(layers: seq<Layer>): (names: seq<string>)
    ensures |names| == |layers|
  {
    seq(|layers|, k requires 0 <= k < |layers| => layers[k].name)
  }

  /** No layer object occurs twice in the list. */
  predicate Distinct(layers: seq<Layer>) {
    forall a, b :: 0 <= a < b < |layers| ==> layers[a] != layers[b]
  }

  /** The flags the loop assigns from the carried value `on` of `set_trainable` onwards. */
  function FlagsFrom(names: seq<string>, target: string, on: bool): (flags: seq<bool>)
    ensures |flags| == |names|
  {
    if names == [] then []
    else
      var now := on || names[0] == target;
      [now] + FlagsFrom(names[1..], target, now)
  }

  /** The `trainable` flags that the `set_trainable` loop gives the layers, from `set_trainable = False`. */
  function TrainableFlags(names: seq<string>, target: string): (flags: seq<bool>)
    ensures |flags| == |names|
  {
    FlagsFrom(names, target, false)
  }

  /**
   * The `set_trainable` loop: walk the layers, switching `set_trainable` on at the first
   * layer named `target`, and set every layer's flag to it.
   */
  method SetTrainable(layers: seq<Layer>, target: string)
    requires Distinct(layers)
    modifies set l | l in layers
    ensures forall k :: 0 <= k < |layers| ==> layers[k].trainable == TrainableFlags(Names(layers), target)[k]
  {
    var setTrainable := false;
    var k := 0;
    while k < |layers|
      invariant 0 <= k <= |layers|
      invariant setTrainable <==> target in Names(layers)[..k]
      invariant forall j :: 0 <= j < k ==> layers[j].trainable == TrainableFlags(Names(layers), target)[j]
    {
      var layer := layers[k];
      if layer.name == target {
        setTrainable := true;
      }
      FlagIffSeen(Names(layers), target, k);
      assert Names(layers)[..k + 1] == Names(layers)[..k] + [layer.name];
      if setTrainable {
        layer.trainable := true;
      } else {
        layer.trainable := false;
      }
      k := k + 1;
    }
  }

  // ---------------------------------------------------------------------
  // Properties of the flags
  // ---------------------------------------------------------------------

  /** Starting from a carried value, flag k is on iff it was on already or the target is among the first k + 1 names. */
  lemma {:induction false} FlagsFromIffSeen(names: seq<string>, target: string, on: bool, k: nat)
    requires k < |names|
    ensures FlagsFrom(names, target, on)[k] <==> on || target in names[..k + 1]
  {
    var now := on || names[0] == target;
    if k > 0 {
      FlagsFromIffSeen(names[1..], target, now, k - 1);
      assert names[..k + 1] == [names[0]] + names[1..][..k];
    }
  }

  /** A layer is trainable exactly when a layer at or before it carries the name. */
  lemma FlagIffSeen(names: seq<string>, target: string, k: nat)
    requires k < |names|
    ensures TrainableFlags(names, target)[k] <==> target in names[..k + 1]
  {
    FlagsFromIffSeen(names, target, false, k);
  }

  /** Once on, the flag stays on. */
  lemma FlagsMonotone(names: seq<string>, target: string, k: nat, l: nat)
    requires k <= l < |names|
    requires TrainableFlags(names, target)[k]
    ensures TrainableFlags(names, target)[l]
  {
    FlagIffSeen(names, target, k);
    FlagIffSeen(names, target, l);
    var i :| 0 <= i < k + 1 && names[..k + 1][i] == target;
    assert names[..l + 1][i] == target;
  }

  /** With `first` the first layer carrying the name, exactly the layers from `first` on are trainable. */
  lemma FlagsSplitAtFirst(names: seq<string>, target: string, first: nat)
    requires first < |names| && names[first] == target
    requires target !in names[..first]
    ensures forall k :: 0 <= k < |names| ==> (TrainableFlags(names, target)[k] <==> first <= k)
  {
    forall k | 0 <= k < |names|
      ensures TrainableFlags(names, target)[k] <==> first <= k
    {
      FlagIffSeen(names, target, k);
      if k < first {
        assert names[..k + 1] == names[..first][..k + 1];
      } else {
        assert names[..k + 1][first] == target;
      }
    }
  }

  /** No layer with that name: every layer is frozen. */
  lemma NoMatchFreezesAll(names: seq<string>, target: string)
    requires target !in names
    ensures forall k :: 0 <= k < |names| ==> !TrainableFlags(names, target)[k]
  {
    forall k | 0 <= k < |names|
      ensures !TrainableFlags(names, target)[k]
    {
      FlagIffSeen(names, target, k);
      assert forall x :: x in names[..k + 1] ==> x in names;
    }
  }

  // ---------------------------------------------------------------------
  // The script as written: `conv_base = True` and 'blocks_conv1'
  // ---------------------------------------------------------------------

  /** Accessing `.layers` on a value that has none. */
  datatype AttributeError = AttributeError

  /** What the name `conv_base` is bound to: the pretrained base, or a boolean. */
  datatype Binding = ModelValue(layers: seq<Layer>) | BoolValue(b: bool)

  /** `conv_base.layers`. */
  function LayersOf(binding: Binding): (r: Result<seq<Layer>, AttributeError>)
    ensures r.Ok? <==> binding.ModelValue?
    ensures r.Ok? ==> r.value == binding.layers
  {
    match binding
    case ModelValue(layers) => Ok(layers)
    case BoolValue(_) => Err(AttributeError)
  }

  /** The `set_trainable` loop with `conv_base` bound to `binding`: `conv_base.layers` first, then the loop. */
  method FreezeConvBase(binding: Binding, target: string) returns (r: Result<(), AttributeError>)
    requires binding.ModelValue? ==> Distinct(binding.layers)
    modifies if binding.ModelValue? then set l | l in binding.layers else {}
    ensures r.Ok? <==> binding.ModelValue?
    ensures binding.BoolValue? ==> r == Err(AttributeError)
    ensures r.Ok? ==> forall k :: 0 <= k < |binding.layers| ==>
      binding.layers[k].trainable == TrainableFlags(Names(binding.layers), target)[k]
  {
    var layers := LayersOf(binding);
    if layers.Err? {
      return Err(layers.error);
    }
    SetTrainable(layers.value, target);
    r := Ok(());
  }

  /**
   * The script as written: `conv_base = True` rebinds the base just before
   * the loop, so `conv_base.layers` raises before any flag is set.
   */
  method FineTuneAsWritten(convBase: seq<Layer>, target: string) returns (r: Result<(), AttributeError>)
    ensures r == Err(AttributeError)
  {
    var binding := ModelValue(convBase);
    binding := BoolValue(true);
    r := FreezeConvBase(binding, target);
  }

  /** The `set_trainable` loop run on the pretrained base itself, without the rebinding. */
  method FineTune(convBase: seq<Layer>, target: string) returns (r: Result<(), AttributeError>)
    requires Distinct(convBase)
    modifies set l | l in convBase
    ensures r.Ok?
    ensures forall k :: 0 <= k < |convBase| ==> convBase[k].trainable == TrainableFlags(Names(convBase), target)[k]
  {
    r := FreezeConvBase(ModelValue(convBase), target);
  }

  /** The layer names of Keras' VGG16 convolutional base (`include_top=False`), input layer first. */
  const Vgg16ConvBase: seq<string> := [
    "input_1",
    "block1_conv1", "block1_conv2", "block1_pool",
    "block2_conv1", "block2_conv2", "block2_pool",
    "block3_conv1", "block3_conv2", "block3_conv3", "block3_pool",
    "block4_conv1", "block4_conv2", "block4_conv3", "block4_pool",
    "block5_conv1", "block5_conv2", "block5_conv3", "block5_pool"
  ]

  /** No VGG16 layer is called 'blocks_conv1': with the name as written, the whole base stays frozen. */
  lemma TypoFreezesEverything()
    ensures |TrainableFlags(Vgg16ConvBase, "blocks_conv1")| == 19
    ensures forall k :: 0 <= k < 19 ==> !TrainableFlags(Vgg16ConvBase, "blocks_conv1")[k]
  {
    forall k | 0 <= k < |Vgg16ConvBase|
      ensures Vgg16ConvBase[k] != "blocks_conv1"
    {
      assert Vgg16ConvBase[k][5] != 's' || |Vgg16ConvBase[k]| != 12;
    }
    NoMatchFreezesAll(Vgg16ConvBase, "blocks_conv1");
  }

  /** 'block5_conv1' is layer 15 of the base and does not occur before it. */
  lemma Block5NotEarlier()
    ensures Vgg16ConvBase[15] == "block5_conv1"
    ensures "block5_conv1" !in Vgg16ConvBase[..15]
  {
    var early := Vgg16ConvBase[..15];
    forall k | 0 <= k < 15
      ensures early[k] != "block5_conv1"
    {
      assert early[k][5] != '5' || |early[k]| != 12;
    }
  }

  /** With 'block5_conv1', the last convolutional block (its three convolutions and its pooling) is trainable and the rest frozen. */
  lemma IntendedUnfreezesBlock5()
    ensures forall k :: 0 <= k < 19 ==> (TrainableFlags(Vgg16ConvBase, "block5_conv1")[k] <==> 15 <= k)
  {
    Block5NotEarlier();
    FlagsSplitAtFirst(Vgg16ConvBase, "block5_conv1", 15);
  }
}
