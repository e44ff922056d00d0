# Dendritic MLP: hardcoded dendrite segments and constructor configuration

This project models the algorithmic core of `DendriticMLP` from the
`nupic.research` dendrites framework
(`packages/dendrites/src/nupic/research/frameworks/dendrites/modules/dendritic_mlp.py`):

* **Hardcoding dendritic weights** (`_hardcode_dendritic_weights` and its guard
  `hardcode_dendritic_weights`). A dendrite layer's weight parameter is a table of
  `num_units x num_segments x dim_context` weights. It is replaced by a freshly
  filled table, in one of two modes:
  * `"overlapping"`: the table starts at -0.95 everywhere. Each context picks
    `k = int(0.05 * num_units)` distinct units. Each picked unit receives the
    context vector in its next free segment. A per-unit counter stops a unit from
    taking more than `num_segments` contexts, so no segment is overwritten.
  * `"non_overlapping"`: each unit picks one context. Segment 0 holds the 0/1
    indicator of that context's positive entries. Every other segment holds that
    indicator minus one.
  * Any other `init` raises and leaves the weights alone.
  * In "non_overlapping" mode a table without segments raises at the first
    unit, because segment 0 does not exist to be added to the others. A call
    with units but no contexts raises one statement earlier, when it picks a
    context.
  * A 2-D parameter (one-segment layers) is filled as a single-segment table and
    stays 2-D.
  * The network-level guard does nothing when the network has no segments.
    Otherwise it hardcodes each hidden layer in turn.
* **Constructor configuration.** This covers the assertions on the arguments and
  the k-winners flag, which is forced off when `kw_percent_on == 0`. It also covers
  the one-segment layer class and the per-layer class list. It records the sizes
  each layer connects and the input sparsity assumed by each "modified"
  initialisation. Finally, an integer `output_size` is normalised to one output head.

The random draws of `torch.randperm` are inputs to the model (`Draws`): one
selection of distinct units per context for `"overlapping"`, and one context
index per unit for `"non_overlapping"`.

Layout:

* `wrappers.dfy`: `Option`, `Outcome`, `Result`.
* `hardcode_spec.dfy` (module `HardcodeSpec`): what each entry of the table must
  hold, as functions of the contexts and the draws. It also holds lemmas about
  how the table evolves and about the activations it produces: the dot product
  of a segment with a context.
* `hardcode.dfy` (module `DendriticHardcode`): the fill loops over `array3<real>`
  with a counter `array<nat>`. It also has the class `DendriteParameter`, whose
  `data` field is replaced, and the network-level `HardcodeDendriticWeights`.
* `config.dfy` (module `DendriticConfig`): the constructor. `Construct` is a
  method with the source's two loops: the hidden layers, carrying `input_size`
  forward, and the output heads.

Where the docstring of `hardcode_dendritic_weights` and the code differ, the
model follows the code. The docstring says unused segments hold -1 in
"overlapping" mode; the code writes -0.95. It says units are sampled with
replacement; the code draws a permutation prefix per context. Units are
therefore distinct within a context and may repeat across contexts.

As written, the constructor asserts that `dendrite_init` is `"kaiming"` or
`"modified"`. The branch that sets `hardcode_dendrites` and a zero dendrite
sparsity for `dendrite_init == "hardcoded"` (lines 124-132) therefore never
takes effect. `Construct` states this: every network it builds has
`hardcodeDendrites == false` and the configured dendrite sparsity.

## Model

| member | source | states |
|---|---|---|
| `HardcodeSpec.UnitsPerContext` | packages/dendrites/src/nupic/research/frameworks/dendrites/modules/dendritic_mlp.py:288 | the number of units per context is the floor of `num_units / 20` (`int(0.05 * num_units)`) |
| `HardcodeSpec.ContextsSelecting` | packages/dendrites/src/nupic/research/frameworks/dendrites/modules/dendritic_mlp.py:294-299 | the contexts that selected a unit are listed in strictly increasing order; each is a real context whose selection contains the unit |
| `HardcodeSpec.SegmentsUsed` | packages/dendrites/src/nupic/research/frameworks/dendrites/modules/dendritic_mlp.py:301-308 | a unit's counter never exceeds `num_segments` nor the number of contexts that selected it, and equals the latter while below `num_segments` |
| `HardcodeSpec.ContextsSelectingComplete` | packages/dendrites/src/nupic/research/frameworks/dendrites/modules/dendritic_mlp.py:294-299 | a context is listed for a unit if and only if its selection contains that unit |
| `HardcodeSpec.NoSelectionNoSegments` | packages/dendrites/src/nupic/research/frameworks/dendrites/modules/dendritic_mlp.py:292-308 | a unit that no context selects gets no context at all |
| `HardcodeSpec.ContextsSelectingPrefix` | packages/dendrites/src/nupic/research/frameworks/dendrites/modules/dendritic_mlp.py:294-308 | processing further contexts only appends to a unit's list of selecting contexts |
| `HardcodeSpec.SegmentsUsedAppend` | packages/dendrites/src/nupic/research/frameworks/dendrites/modules/dendritic_mlp.py:303-308 | one more context raises a unit's counter by one exactly when it selects the unit and the unit has a free segment; a full unit is skipped |
| `HardcodeSpec.OverlappingAppend` | packages/dendrites/src/nupic/research/frameworks/dendrites/modules/dendritic_mlp.py:303-307 | one more context writes its vector into exactly the next free segment of each selected non-full unit; every other entry is unchanged |
| `HardcodeSpec.OverlappingContextKept` | packages/dendrites/src/nupic/research/frameworks/dendrites/modules/dendritic_mlp.py:288-308 | a context that selects a unit with a free segment ends up in the segment numbered by the count of earlier contexts selecting that unit; later contexts never overwrite it |
| `HardcodeSpec.UnusedSegmentRejects` | packages/dendrites/src/nupic/research/frameworks/dendrites/modules/dendritic_mlp.py:284-285 | a segment no context was written into (all -0.95) gives a negative activation for every non-negative context with a positive entry |
| `HardcodeSpec.UnselectedUnitStaysOff` | packages/dendrites/src/nupic/research/frameworks/dendrites/modules/dendritic_mlp.py:248-254 | every segment of a unit that no context selected gives a negative activation for every non-negative, non-zero context |
| `HardcodeSpec.PrimarySegmentAcceptsOwnContext` | packages/dendrites/src/nupic/research/frameworks/dendrites/modules/dendritic_mlp.py:314-315 | "non_overlapping": segment 0 gives a positive activation for the unit's own context when it has a positive entry |
| `HardcodeSpec.SecondarySegmentsPassOwnContext` | packages/dendrites/src/nupic/research/frameworks/dendrites/modules/dendritic_mlp.py:316-317 | "non_overlapping": every segment after the first gives a non-negative activation for the unit's own context |
| `HardcodeSpec.SecondarySegmentsRejectOtherContext` | packages/dendrites/src/nupic/research/frameworks/dendrites/modules/dendritic_mlp.py:256-261 | "non_overlapping": every segment after the first gives a negative activation for a non-negative context that is positive where the unit's own context is not |
| `DendriticHardcode.HardcodeOutcome` | packages/dendrites/src/nupic/research/frameworks/dendrites/modules/dendritic_mlp.py:283-321 | a call fails with the invalid-choice error if and only if `init` is neither mode. It fails for lack of a context if and only if it is "non_overlapping" with units but no contexts. It fails for lack of segment 0 if and only if it is "non_overlapping" with units and contexts but no segments. "overlapping" never fails |
| `DendriticHardcode.AssignNextSegment` | packages/dendrites/src/nupic/research/frameworks/dendrites/modules/dendritic_mlp.py:298-308 | the inner loop body gives the selected unit the context in its next free segment and counts it, or skips the unit when it is full. It touches no other unit |
| `DendriticHardcode.AssignContext` | packages/dendrites/src/nupic/research/frameworks/dendrites/modules/dendritic_mlp.py:294-308 | after processing one more context, every unit's segments and counter agree with the specification for the longer list of contexts |
| `DendriticHardcode.UnselectedUnitCarriesOver` | packages/dendrites/src/nupic/research/frameworks/dendrites/modules/dendritic_mlp.py:297-299 | a unit the current context does not select keeps its segments and its counter |
| `DendriticHardcode.FillOverlapping` | packages/dendrites/src/nupic/research/frameworks/dendrites/modules/dendritic_mlp.py:283-308 | the filled table has the parameter's shape. Segment s of unit i holds the (s+1)-th context that selected i when s is below the unit's capped counter (`SegmentsUsed`), and -0.95 otherwise (`OverlappingWeight`) |
| `DendriticHardcode.FillNonOverlapping` | packages/dendrites/src/nupic/research/frameworks/dendrites/modules/dendritic_mlp.py:310-318 | fails exactly when there are units and either no contexts (the missing-context error) or no segments (the missing-segment error). Otherwise segment 0 of unit i is the positive-entry indicator of its picked context and every later segment is that indicator minus one |
| `DendriticHardcode.DendriteParameter.Hardcode` | packages/dendrites/src/nupic/research/frameworks/dendrites/modules/dendritic_mlp.py:271-329 | the outcome is `HardcodeOutcome` of the parameter's unit and segment counts. On failure the parameter keeps its old tensor. On success it keeps its shape, including a 2-D one, and holds the table the mode prescribes |
| `DendriticHardcode.FirstFailure` | packages/dendrites/src/nupic/research/frameworks/dendrites/modules/dendritic_mlp.py:266-269 | given the layers' unit counts and their shared segment count, every layer before the returned index succeeds and the layer at it, if any, fails |
| `DendriticHardcode.HardcodeDendriticWeights` | packages/dendrites/src/nupic/research/frameworks/dendrites/modules/dendritic_mlp.py:244-269 | with no segments nothing changes and no error is raised, whatever the contexts, `init` and draws. Otherwise, for layers built with the network's segment count, the layers before the first failing one are hardcoded, the rest keep their tensors, and the result is that layer's error or success |
| `HardcodeSpec.Indicator` | packages/dendrites/src/nupic/research/frameworks/dendrites/modules/dendritic_mlp.py:315 | "non_overlapping": a context entry maps to 1 exactly when it is positive and to 0 exactly when it is not |
| `DendriticConfig.Accepted` | packages/dendrites/src/nupic/research/frameworks/dendrites/modules/dendritic_mlp.py:100-103 | an accepted configuration uses neither "hardcoded" initialisation and has `0 < 1 - kw_percent_on <= 1`. A negative or too-large `kw_percent_on` or a negative `context_percent_on` is refused |
| `DendriticConfig.EffectiveKw` | packages/dendrites/src/nupic/research/frameworks/dendrites/modules/dendritic_mlp.py:105-106 | k-winners is in use exactly when it is requested and `kw_percent_on` is not zero |
| `DendriticConfig.OutputSizes` | packages/dendrites/src/nupic/research/frameworks/dendrites/modules/dendritic_mlp.py:187-189 | an integer `output_size` becomes a one-element list holding it. A sequence of sizes is kept as it is |
| `DendriticConfig.HiddenLayerClasses` | packages/dendrites/src/nupic/research/frameworks/dendrites/modules/dendritic_mlp.py:110-144 | one segment forces the one-segment class on every layer. Otherwise a single class is broadcast, or a list is indexed per layer. A list shorter than the hidden layers is an error, and only then |
| `DendriticConfig.WeightInputSparsity` | packages/dendrites/src/nupic/research/frameworks/dendrites/modules/dendritic_mlp.py:152-162 | the input density assumed by a modified init is 1 for the first layer and under ReLU, and `kw_percent_on` after a k-winners layer. So the sparsity lies in [0, 1) |
| `DendriticConfig.Construct` | packages/dendrites/src/nupic/research/frameworks/dendrites/modules/dendritic_mlp.py:79-203 | failed assertions and a short class list are the only errors. kw is on iff requested and `kw_percent_on != 0`. Layer sizes chain from the input size. The first layer uses input sparsity 0 and later layers and heads use `1 - kw_percent_on` or 0. An integer `output_size` gives one head. `hardcode_dendrites` is never set |

## Left out

* `_init_sparse_weights` and `_init_sparse_dendrites` (lines 217-242) are left out: the Kaiming-style bound (`sqrt`) and uniform random fills have no discrete behaviour. The model records only whether each is applied and with which input sparsity.
* `torch.randperm` is not modelled as a random source. Its draws are caller-supplied inputs (`Draws`), constrained to what a permutation guarantees: distinct in-range units per context, and an in-range context per unit.
* `forward`, `KWinners`, `SparseWeights`, `rezero_weights`, the dendritic layer classes and `nn.Linear` are external modules. `Construct` records only the arguments it passes to them.
* `freeze_dendrites` (lines 167-171) only toggles `requires_grad`. Autograd is not modelled.
* Floating point is left out: weights and percentages are `real`. `int(0.05 * num_units)` is modelled as `num_units / 20`. The double nearest 0.05 lies above 1/20, so for any realistic `num_units` the product rounds to neither a smaller nor a larger integer part.
* `kw_percent_on = None`, which the constructor's assertion admits, is not modelled (`kwPercentOn` is a `real`). With `kw` set, it would fail inside `1 - kw_percent_on` or inside `KWinners`.
* Python's `-O` flag, which disables the constructor's assertions, is not modelled.
* Context vectors whose width differs from the weight table's `dim_context` are excluded by precondition (`Rectangular`) whenever `init` names one of the two modes. This excludes some inputs the source accepts. There, torch raises a shape error or broadcasts a width-one context when a context is actually written. But "overlapping" with fewer than 20 units selects no unit and writes nothing, so it would succeed with any width. `HardcodeDendriticWeights` requires `Rectangular` and fitting draws only when the network has segments, and `DendriteParameter.Hardcode` does not require `Rectangular` for an invalid `init`.
* Weight tensors of rank other than 2 or 3 are not modelled.
* `DendriteParameter`: a 2-D parameter is held with a segment axis of length one plus a `squeezed` flag. The intermediate unsqueezed view and its aliasing with the original tensor are not modelled.
* `output_nonlinearity` is recorded only as a flag on each head. The module itself is external.
* tests/unit/frameworks/dendrites/apply_dendrites_modules_test.py compares functional and module forms of dendritic bias and gating on random tensors. Those implementations are not part of this model.
