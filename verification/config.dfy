/**
 * The decisions the `DendriticMLP` constructor makes from its arguments:
 * the effective k-winners flag, the dendritic layer class of each hidden
 * layer, the sizes each layer and output head connects, the input sparsity
 * each "modified" initialisation assumes, and the output heads. The layers
 * themselves (linear, sparse, k-winners modules) are external; a layer here
 * records what the constructor passes to them.
 */
module DendriticConfig {
  import opened Wrappers

  datatype LayerClass =
    | AbsoluteMaxGatingDendriticLayer
    | OneSegmentDendriticLayer
    | OtherLayerClass(name: string)

  /** `dendritic_layer_class`: one class for every hidden layer, or a list
      with one class per hidden layer. */
  datatype LayerClassChoice = Broadcast(cls: LayerClass) | PerLayer(classes: seq<LayerClass>)

  /** `output_size`: an integer (one head) or an iterable of integers. */
  datatype OutputSize = SingleHead(size: nat) | MultipleHeads(sizes: seq<nat>)

  datatype Config = Config(
    inputSize: nat,
    outputSize: OutputSize,
    hiddenSizes: seq<nat>,
    numSegments: nat,
    dimContext: nat,
    kw: bool,
    kwPercentOn: real,
    contextPercentOn: real,
    dendriteWeightSparsity: real,
    weightSparsity: real,
    weightInit: string,
    dendriteInit: string,
    hasOutputNonlinearity: bool,
    layerClass: LayerClassChoice)

  datatype Activation = KWinners(n: nat, percentOn: real) | ReLU

  /** One hidden layer: its class and the arguments it is built with.
      `weightInputSparsity` / `dendriteInputSparsity` are `Some(x)` when the
      modified initialisation of the feed-forward / dendrite weights is
      applied with input sparsity `x`, and `None` when it is not applied. */
  datatype HiddenLayer = HiddenLayer(
    layerClass: LayerClass,
    inputSize: nat,
    outputSize: nat,
    numSegments: nat,
    dimContext: nat,
    moduleSparsity: real,
    dendriteSparsity: real,
    weightInputSparsity: Option<real>,
    dendriteInputSparsity: Option<real>,
    activation: Activation)

  /** One output head: a sparse linear layer, optionally followed by the
      output nonlinearity. */
  datatype OutputHead = OutputHead(
    inputSize: nat,
    outputSize: nat,
    sparsity: real,
    weightInputSparsity: Option<real>,
    hasNonlinearity: bool)

  datatype Network = Network(
    numSegments: nat,
    kw: bool,
    hardcodeDendrites: bool,
    layers: seq<HiddenLayer>,
    heads: seq<OutputHead>,
    singleOutputHead: bool)

  datatype ConfigError =
    | AssertionFailed     // one of the constructor's argument assertions fails
    | LayerClassMissing   // the per-layer class list has fewer entries than hidden layers

  /** The constructor's argument assertions. An accepted configuration never
      asks for "hardcoded" dendrites, and `1 - kw_percent_on` is positive. */
  predicate Accepted(cfg: Config)
    ensures Accepted(cfg) ==> cfg.weightInit != "hardcoded" && cfg.dendriteInit != "hardcoded"
    ensures Accepted(cfg) ==> 0.0 < 1.0 - cfg.kwPercentOn <= 1.0
    ensures cfg.kwPercentOn < 0.0 || cfg.kwPercentOn >= 1.0 || cfg.contextPercentOn < 0.0 ==> !Accepted(cfg)
  {
    && cfg.weightInit in {"kaiming", "modified"}
    && cfg.dendriteInit in {"kaiming", "modified"}
    && 0.0 <= cfg.kwPercentOn < 1.0
    && cfg.contextPercentOn >= 0.0
  }

  /** k-winners is used only when asked for and `kw_percent_on` is not zero. */
  function EffectiveKw(cfg: Config): (kw: bool)
    ensures !cfg.kw ==> !kw
    ensures cfg.kwPercentOn == 0.0 ==> !kw
    ensures cfg.kw && cfg.kwPercentOn != 0.0 ==> kw
  {
    cfg.kw && cfg.kwPercentOn != 0.0
  }

  /** The class of each hidden layer: a single segment forces the one-segment
      class on every layer; otherwise a single class is used for every layer
      and a list is indexed by layer, which fails when it is too short. */
  function HiddenLayerClasses(cfg: Config): (r: Result<seq<LayerClass>, ConfigError>)
    ensures r.Err? <==>
      cfg.numSegments != 1 && cfg.layerClass.PerLayer? && |cfg.layerClass.classes| < |cfg.hiddenSizes|
    ensures r.Ok? ==> |r.value| == |cfg.hiddenSizes|
    ensures r.Ok? && cfg.numSegments == 1 ==>
      forall i :: 0 <= i < |r.value| ==> r.value[i] == OneSegmentDendriticLayer
    ensures r.Ok? && cfg.numSegments != 1 && cfg.layerClass.Broadcast? ==>
      forall i :: 0 <= i < |r.value| ==> r.value[i] == cfg.layerClass.cls
    ensures r.Ok? && cfg.numSegments != 1 && cfg.layerClass.PerLayer? ==>
      forall i :: 0 <= i < |r.value| ==> r.value[i] == cfg.layerClass.classes[i]
  {
    var n := |cfg.hiddenSizes|;
    var choice := if cfg.numSegments == 1 then Broadcast(OneSegmentDendriticLayer) else cfg.layerClass;
    match choice
    case Broadcast(cls) => Ok(seq(n, i => cls))
    case PerLayer(classes) =>
      if |classes| < n then Err(LayerClassMissing) else Ok(classes[..n])
  }

  /** The input sparsity a "modified" feed-forward initialisation assumes:
      none for the first hidden layer (its input is the network input), and
      for later layers the fraction of the previous layer's units that
      k-winners switches off, or none under ReLU. Output heads always assume
      `1 - kw_percent_on` under k-winners and none under ReLU, even when there
      are no hidden layers and a head reads the network input directly. The
      input density `1 - sparsity` is therefore never zero. */
  function WeightInputSparsity(cfg: Config, firstLayer: bool): (sparsity: real)
    requires Accepted(cfg)
    ensures 0.0 <= sparsity < 1.0
    ensures 1.0 - sparsity == if !firstLayer && EffectiveKw(cfg) then cfg.kwPercentOn else 1.0
  {
    if firstLayer then 0.0
    else if EffectiveKw(cfg) then 1.0 - cfg.kwPercentOn
    else 0.0
  }

  /** The output head sizes: an integer `output_size` becomes a one-element tuple. */
  function OutputSizes(outputSize: OutputSize): (sizes: seq<nat>)
    ensures outputSize.SingleHead? ==> sizes == [outputSize.size]
    ensures outputSize.MultipleHeads? ==> sizes == outputSize.sizes
  {
    match outputSize
    case SingleHead(size) => [size]
    case MultipleHeads(sizes) => sizes
  }

  /** The `DendriticMLP` constructor: check the arguments, then build the
      hidden layers in order (each taking the previous layer's size as its
      input size) and then one output head per output size. */
  method Construct(cfg: Config) returns (r: Result<Network, ConfigError>)
    ensures !Accepted(cfg) ==> r == Err(AssertionFailed)
    ensures Accepted(cfg) ==> (r.Err? <==> HiddenLayerClasses(cfg).Err?)
    ensures r.Err? ==> r.error == AssertionFailed || r.error == LayerClassMissing
    ensures r.Ok? ==> var net := r.value;
      && net.numSegments == cfg.numSegments
      && (net.kw <==> cfg.kw && cfg.kwPercentOn != 0.0)
      && !net.hardcodeDendrites
      && |net.layers| == |cfg.hiddenSizes|
      && (net.layers != [] ==> net.layers[0].inputSize == cfg.inputSize)
      && (forall i :: 0 < i < |net.layers| ==> net.layers[i].inputSize == net.layers[i - 1].outputSize)
      && (forall i :: 0 <= i < |net.layers| ==> net.layers[i].outputSize == cfg.hiddenSizes[i])
      && (forall i :: 0 <= i < |net.layers| ==> net.layers[i].layerClass == HiddenLayerClasses(cfg).value[i])
      && (forall i :: 0 <= i < |net.layers| ==>
            && net.layers[i].numSegments == cfg.numSegments
            && net.layers[i].dimContext == cfg.dimContext
            && net.layers[i].moduleSparsity == cfg.weightSparsity
            && net.layers[i].dendriteSparsity == cfg.dendriteWeightSparsity)
    ensures r.Ok? ==> var net := r.value;
      && (forall i :: 0 <= i < |net.layers| ==>
            net.layers[i].weightInputSparsity ==
              if cfg.weightInit == "modified" then Some(WeightInputSparsity(cfg, i == 0)) else None)
      && (forall i :: 0 <= i < |net.layers| ==>
            net.layers[i].dendriteInputSparsity ==
              if cfg.dendriteInit == "modified" then Some(1.0 - cfg.contextPercentOn) else None)
      && (forall i :: 0 <= i < |net.layers| ==>
            net.layers[i].activation ==
              if net.kw then KWinners(cfg.hiddenSizes[i], cfg.kwPercentOn) else ReLU)
    ensures r.Ok? ==> var net := r.value;
      && (net.singleOutputHead <==> cfg.outputSize.SingleHead?)
      && (cfg.outputSize.SingleHead? ==> |net.heads| == 1 && net.heads[0].outputSize == cfg.outputSize.size)
      && |net.heads| == |OutputSizes(cfg.outputSize)|
      && (forall h :: 0 <= h < |net.heads| ==>
            && net.heads[h].inputSize == (if net.layers == [] then cfg.inputSize else cfg.hiddenSizes[|net.layers| - 1])
            && net.heads[h].outputSize == OutputSizes(cfg.outputSize)[h]
            && net.heads[h].sparsity == cfg.weightSparsity
            && net.heads[h].hasNonlinearity == cfg.hasOutputNonlinearity
            && net.heads[h].weightInputSparsity ==
                 if cfg.weightInit == "modified" then Some(WeightInputSparsity(cfg, false)) else None)
  {
    if !Accepted(cfg) {
      return Err(AssertionFailed);
    }
    var kw := EffectiveKw(cfg);
    var hardcodeDendrites := cfg.dendriteInit == "hardcoded";
    var dendriteSparsity := if hardcodeDendrites then 0.0 else cfg.dendriteWeightSparsity;
    var classes := HiddenLayerClasses(cfg);
    if classes.Err? {
      return Err(classes.error);
    }
    var layers: seq<HiddenLayer> := [];
    var inputSize := cfg.inputSize;
    for i := 0 to |cfg.hiddenSizes|
      invariant |layers| == i
      invariant inputSize == if i == 0 then cfg.inputSize else cfg.hiddenSizes[i - 1]
      invariant layers != [] ==> layers[0].inputSize == cfg.inputSize
      invariant forall l :: 0 < l < i ==> layers[l].inputSize == layers[l - 1].outputSize
      invariant forall l :: 0 <= l < i ==>
        && layers[l].outputSize == cfg.hiddenSizes[l]
        && layers[l].layerClass == classes.value[l]
        && layers[l].numSegments == cfg.numSegments
        && layers[l].dimContext == cfg.dimContext
        && layers[l].moduleSparsity == cfg.weightSparsity
        && layers[l].dendriteSparsity == cfg.dendriteWeightSparsity
        && layers[l].weightInputSparsity ==
             (if cfg.weightInit == "modified" then Some(WeightInputSparsity(cfg, l == 0)) else None)
        && layers[l].dendriteInputSparsity ==
             (if cfg.dendriteInit == "modified" then Some(1.0 - cfg.contextPercentOn) else None)
        && layers[l].activation == if kw then KWinners(cfg.hiddenSizes[l], cfg.kwPercentOn) else ReLU
    {
      var weightInputSparsity := None;
      if cfg.weightInit == "modified" {
        if i == 0 {
          weightInputSparsity := Some(0.0);
        } else {
          weightInputSparsity := Some(if kw then 1.0 - cfg.kwPercentOn else 0.0);
        }
      }
      var dendriteInputSparsity := if cfg.dendriteInit == "modified" then Some(1.0 - cfg.contextPercentOn) else None;
      var activation := if kw then KWinners(cfg.hiddenSizes[i], cfg.kwPercentOn) else ReLU;
      var layer := HiddenLayer(classes.value[i], inputSize, cfg.hiddenSizes[i], cfg.numSegments,
                               cfg.dimContext, cfg.weightSparsity, dendriteSparsity,
                               weightInputSparsity, dendriteInputSparsity, activation);
      layers := layers + [layer];
      inputSize := cfg.hiddenSizes[i];
    }
    var singleOutputHead := cfg.outputSize.SingleHead?;
    var outputSizes := OutputSizes(cfg.outputSize);
    var heads: seq<OutputHead> := [];
    for h := 0 to |outputSizes|
      invariant |heads| == h
      invariant forall l :: 0 <= l < h ==>
        && heads[l].inputSize == inputSize
        && heads[l].outputSize == outputSizes[l]
        && heads[l].sparsity == cfg.weightSparsity
        && heads[l].hasNonlinearity == cfg.hasOutputNonlinearity
        && heads[l].weightInputSparsity ==
             if cfg.weightInit == "modified" then Some(WeightInputSparsity(cfg, false)) else None
    {
      var weightInputSparsity := None;
      if cfg.weightInit == "modified" {
        weightInputSparsity := Some(if kw then 1.0 - cfg.kwPercentOn else 0.0);
      }
      heads := heads + [OutputHead(inputSize, outputSizes[h], cfg.weightSparsity,
                                   weightInputSparsity, cfg.hasOutputNonlinearity)];
    }
    return Ok(Network(cfg.numSegments, kw, hardcodeDendrites, layers, heads, singleOutputHead));
  }
}
