/**
 * `DendriticMLP._hardcode_dendritic_weights` and its guard
 * `DendriticMLP.hardcode_dendritic_weights`: fill a fresh
 * `num_units x num_segments x dim_context` table in place and make it the
 * new value of a dendrite layer's weight parameter.
 */
module DendriticHardcode {
  import opened Wrappers
  import opened HardcodeSpec

  /** The exceptions `_hardcode_dendritic_weights` can raise. */
  datatype HardcodeError =
    | InvalidChoice     // `init` is neither "overlapping" nor "non_overlapping"
    | NoContextToPick   // "non_overlapping" with units but no context vectors
    | NoSegmentToRead   // "non_overlapping" with units and contexts but no segment 0 to add

  /** The random draws one call takes: for "overlapping", one
      `randperm(num_units)[:k]` per context; for "non_overlapping", the
      first element of one `randperm(num_contexts)` per unit. */
  datatype Draws = Draws(selections: seq<seq<nat>>, picks: seq<nat>)

  /** Whether a call with this `init`, number of contexts, number of units
      and number of segments succeeds, and with which error it fails
      otherwise. In "non_overlapping" mode the first unit fails when there is
      no context to pick, and otherwise when the table has no segment 0 to
      add to the later segments. */
  function HardcodeOutcome(init: string, numContexts: nat, numUnits: nat, numSegments: nat)
    : (r: Outcome<HardcodeError>)
    ensures r == Fail(InvalidChoice) <==> init != "overlapping" && init != "non_overlapping"
    ensures r == Fail(NoContextToPick) <==> init == "non_overlapping" && numContexts == 0 && numUnits > 0
    ensures r == Fail(NoSegmentToRead) <==>
      init == "non_overlapping" && numContexts > 0 && numUnits > 0 && numSegments == 0
    ensures init == "overlapping" ==> r == Pass
  {
    if init == "overlapping" then Pass
    else if init == "non_overlapping" then
      if numUnits == 0 then Pass
      else if numContexts == 0 then Fail(NoContextToPick)
      else if numSegments == 0 then Fail(NoSegmentToRead)
      else Pass
    else Fail(InvalidChoice)
  }

  /** The draws fit the table and the contexts in the mode `init` uses. */
  predicate DrawsFit(draws: Draws, init: string, numContexts: nat, numUnits: nat) {
    && (init == "overlapping" ==> AreSelections(draws.selections, numContexts, numUnits))
    && (init == "non_overlapping" ==> PicksFit(draws.picks, numUnits, numContexts))
  }

  /** Unit `i` of the table being filled agrees with `OverlappingWeight`
      after the contexts of `sels`, and its counter with `SegmentsUsed`. */
  ghost predicate UnitFilled(w: array3<real>, chosen: array<nat>, contexts: seq<seq<real>>,
                             sels: seq<seq<nat>>, i: nat)
    requires i < chosen.Length == w.Length0 && |sels| <= |contexts| && Rectangular(contexts, w.Length2)
    reads w, chosen
  {
    && chosen[i] == SegmentsUsed(sels, w.Length1, i)
    && forall s, d :: 0 <= s < w.Length1 && 0 <= d < w.Length2 ==>
         w[i, s, d] == OverlappingWeight(contexts, sels, w.Length1, i, s, d)
  }

  /** The body of the inner loop for one selected unit `i` of context
      `|before|`: give it the context in its next free segment and count
      it, unless all its segments are taken. */
  method AssignNextSegment(w: array3<real>, chosen: array<nat>, contexts: seq<seq<real>>,
                           c: nat, ghost before: seq<seq<nat>>, selected: seq<nat>, i: nat)
    requires w.Length0 == chosen.Length && i < chosen.Length
    requires c == |before| < |contexts| && Rectangular(contexts, w.Length2)
    requires i in selected
    requires UnitFilled(w, chosen, contexts, before, i)
    modifies w, chosen
    ensures UnitFilled(w, chosen, contexts, before + [selected], i)
    ensures forall u, s, d :: 0 <= u < w.Length0 && u != i && 0 <= s < w.Length1 && 0 <= d < w.Length2 ==>
      w[u, s, d] == old(w[u, s, d])
    ensures forall u :: 0 <= u < chosen.Length && u != i ==> chosen[u] == old(chosen[u])
  {
    var numSegments, dimContext := w.Length1, w.Length2;
    forall s, d | 0 <= s < numSegments && 0 <= d < dimContext {
      OverlappingAppend(contexts, before, selected, numSegments, i, s, d);
    }
    SegmentsUsedAppend(before, selected, numSegments, i);
    var segmentId := chosen[i];
    if segmentId == numSegments {
      return;
    }
    forall d | 0 <= d < dimContext {
      w[i, segmentId, d] := contexts[c][d];
    }
    chosen[i] := chosen[i] + 1;
  }

  /** A unit the context `selected` does not select keeps its segments and counter. */
  lemma UnselectedUnitCarriesOver(w: array3<real>, chosen: array<nat>, contexts: seq<seq<real>>,
                                  before: seq<seq<nat>>, selected: seq<nat>, i: nat)
    requires i < chosen.Length == w.Length0
    requires |before| < |contexts| && Rectangular(contexts, w.Length2)
    requires i !in selected
    requires UnitFilled(w, chosen, contexts, before, i)
    ensures UnitFilled(w, chosen, contexts, before + [selected], i)
  {
  }

  /** One iteration of the outer loop: process context `c` (whose
      selection is `selected`) for each selected unit in turn. */
  method AssignContext(w: array3<real>, chosen: array<nat>, contexts: seq<seq<real>>,
                       c: nat, ghost before: seq<seq<nat>>, selected: seq<nat>)
    requires w.Length0 == chosen.Length
    requires c == |before| < |contexts| && Rectangular(contexts, w.Length2)
    requires IsSelection(selected, |selected|, w.Length0)
    requires forall i :: 0 <= i < w.Length0 ==> UnitFilled(w, chosen, contexts, before, i)
    modifies w, chosen
    ensures forall i :: 0 <= i < w.Length0 ==> UnitFilled(w, chosen, contexts, before + [selected], i)
  {
    for j := 0 to |selected|
      invariant forall i :: 0 <= i < w.Length0 && i in selected[..j] ==>
        UnitFilled(w, chosen, contexts, before + [selected], i)
      invariant forall i :: 0 <= i < w.Length0 && i !in selected[..j] ==>
        UnitFilled(w, chosen, contexts, before, i)
    {
      var i := selected[j];
      assert i !in selected[..j];
      assert forall u :: u in selected[..j + 1] <==> u in selected[..j] || u == i;
      label Unassigned:
      AssignNextSegment(w, chosen, contexts, c, before, selected, i);
      forall u | 0 <= u < w.Length0 && u != i && u in selected[..j]
        ensures UnitFilled(w, chosen, contexts, before + [selected], u)
      {
        assert old@Unassigned(UnitFilled(w, chosen, contexts, before + [selected], u));
      }
      forall u | 0 <= u < w.Length0 && u != i && u !in selected[..j]
        ensures UnitFilled(w, chosen, contexts, before, u)
      {
        assert old@Unassigned(UnitFilled(w, chosen, contexts, before, u));
      }
    }
    assert selected[..|selected|] == selected;
    forall i | 0 <= i < w.Length0 && i !in selected
      ensures UnitFilled(w, chosen, contexts, before + [selected], i)
    {
      UnselectedUnitCarriesOver(w, chosen, contexts, before, selected, i);
    }
  }

  /** "overlapping": start from a table of `UnusedWeight`; for each context in
      order, write it into the next free segment of each unit it selects,
      skipping a unit whose `numSegments` segments are all taken. */
  method FillOverlapping(numUnits: nat, numSegments: nat, dimContext: nat,
                         contexts: seq<seq<real>>, sels: seq<seq<nat>>)
    returns (w: array3<real>)
    requires Rectangular(contexts, dimContext)
    requires AreSelections(sels, |contexts|, numUnits)
    ensures w.Length0 == numUnits && w.Length1 == numSegments && w.Length2 == dimContext
    ensures forall i, s, d :: 0 <= i < numUnits && 0 <= s < numSegments && 0 <= d < dimContext ==>
      w[i, s, d] == OverlappingWeight(contexts, sels, numSegments, i, s, d)
  {
    w := new real[numUnits, numSegments, dimContext]((i, s, d) => UnusedWeight);
    // number of contexts each unit has already been given a segment for
    var chosen := new nat[numUnits](i => 0);
    assert sels[..0] == [];
    for c := 0 to |contexts|
      invariant forall i :: 0 <= i < numUnits ==> UnitFilled(w, chosen, contexts, sels[..c], i)
    {
      assert sels[..c + 1] == sels[..c] + [sels[c]];
      AssignContext(w, chosen, contexts, c, sels[..c], sels[c]);
    }
    assert sels[..|contexts|] == sels;
    forall i, s, d | 0 <= i < numUnits && 0 <= s < numSegments && 0 <= d < dimContext
      ensures w[i, s, d] == OverlappingWeight(contexts, sels, numSegments, i, s, d)
    {
      assert UnitFilled(w, chosen, contexts, sels, i);
    }
  }

  /** "non_overlapping": start from a table of zeros; for each unit in turn,
      pick a context, write its positive-entry indicator into every segment,
      overwrite segments 1.. with -1 and add segment 0 to them. Fails on the
      first unit when there is no context to pick, or when there is no
      segment 0 to read. */
  method FillNonOverlapping(numUnits: nat, numSegments: nat, dimContext: nat,
                            contexts: seq<seq<real>>, picks: seq<nat>)
    returns (r: Result<array3<real>, HardcodeError>)
    requires Rectangular(contexts, dimContext)
    requires PicksFit(picks, numUnits, |contexts|)
    ensures r.Err? <==> numUnits > 0 && (|contexts| == 0 || numSegments == 0)
    ensures r.Err? ==> r.error == if |contexts| == 0 then NoContextToPick else NoSegmentToRead
    ensures r.Ok? ==> var w := r.value;
      && w.Length0 == numUnits && w.Length1 == numSegments && w.Length2 == dimContext
      && forall i, s, d :: 0 <= i < numUnits && 0 <= s < numSegments && 0 <= d < dimContext ==>
           w[i, s, d] == NonOverlappingWeight(contexts[picks[i]], s, d)
  {
    var w := new real[numUnits, numSegments, dimContext]((i, s, d) => 0.0);
    for i := 0 to numUnits
      invariant i > 0 ==> |contexts| > 0 && numSegments > 0
      invariant forall u, s, d :: 0 <= u < i && 0 <= s < numSegments && 0 <= d < dimContext ==>
        picks[u] < |contexts| && w[u, s, d] == NonOverlappingWeight(contexts[picks[u]], s, d)
    {
      if |contexts| == 0 {
        return Err(NoContextToPick);
      }
      var v := contexts[picks[i]];
      forall s, d | 0 <= s < numSegments && 0 <= d < dimContext {
        w[i, s, d] := Indicator(v[d]);
      }
      forall s, d | 1 <= s < numSegments && 0 <= d < dimContext {
        w[i, s, d] := -1.0;
      }
      if numSegments == 0 {
        return Err(NoSegmentToRead);
      }
      forall s, d | 1 <= s < numSegments && 0 <= d < dimContext {
        w[i, s, d] := w[i, s, d] + w[i, 0, d];
      }
    }
    return Ok(w);
  }

  /** A dendrite layer's weight parameter. Its tensor is
      `num_units x num_segments x dim_context`, or `num_units x dim_context`
      for a one-segment layer; the latter is held here with a segment axis of
      length one, and `squeezed` records that the tensor is 2-D. */
  class DendriteParameter {
    var data: array3<real>
    const squeezed: bool

    ghost predicate Valid()
      reads this
    {
      squeezed ==> data.Length1 == 1
    }

    constructor (data: array3<real>, squeezed: bool)
      requires squeezed ==> data.Length1 == 1
      ensures Valid() && this.data == data && this.squeezed == squeezed
    {
      this.data := data;
      this.squeezed := squeezed;
    }

    /** The parameter holds the table `init` prescribes for these contexts and draws. */
    ghost predicate Hardcoded(contexts: seq<seq<real>>, init: string, draws: Draws)
      reads this, data
    {
      && (init == "overlapping" ==>
            && |draws.selections| <= |contexts| && Rectangular(contexts, data.Length2)
            && forall i, s, d :: 0 <= i < data.Length0 && 0 <= s < data.Length1 && 0 <= d < data.Length2 ==>
                 data[i, s, d] == OverlappingWeight(contexts, draws.selections, data.Length1, i, s, d))
      && (init == "non_overlapping" ==>
            && |draws.picks| == data.Length0 && Rectangular(contexts, data.Length2)
            && forall i, s, d :: 0 <= i < data.Length0 && 0 <= s < data.Length1 && 0 <= d < data.Length2 ==>
                 draws.picks[i] < |contexts|
                 && data[i, s, d] == NonOverlappingWeight(contexts[draws.picks[i]], s, d))
    }

    /** `_hardcode_dendritic_weights(self, context_vectors, init)`: build the
        new table for `init` and make it the parameter's value, keeping the
        parameter's shape (a 2-D parameter is filled as one segment and stays
        2-D). On an error the parameter is left as it was. */
    method Hardcode(contexts: seq<seq<real>>, init: string, draws: Draws)
      returns (r: Outcome<HardcodeError>)
      requires Valid()
      requires init == "overlapping" || init == "non_overlapping" ==> Rectangular(contexts, data.Length2)
      requires DrawsFit(draws, init, |contexts|, data.Length0)
      modifies this
      ensures Valid()
      ensures r == HardcodeOutcome(init, |contexts|, old(data.Length0), old(data.Length1))
      ensures r.Fail? ==> data == old(data)
      ensures r.Pass? ==>
        && data.Length0 == old(data.Length0)
        && data.Length1 == old(data.Length1)
        && data.Length2 == old(data.Length2)
        && Hardcoded(contexts, init, draws)
    {
      var numUnits, numSegments, dimContext := data.Length0, data.Length1, data.Length2;
      if init == "overlapping" {
        var table := FillOverlapping(numUnits, numSegments, dimContext, contexts, draws.selections);
        data := table;
      } else if init == "non_overlapping" {
        var table := FillNonOverlapping(numUnits, numSegments, dimContext, contexts, draws.picks);
        if table.Err? {
          return Fail(table.error);
        }
        data := table.value;
      } else {
        return Fail(InvalidChoice);
      }
      return Pass;
    }
  }

  /** The number of units of each layer's weight parameter. */
  ghost function UnitCounts(layers: seq<DendriteParameter>): (counts: seq<nat>)
    reads layers
    ensures |counts| == |layers|
    ensures forall j :: 0 <= j < |layers| ==> counts[j] == layers[j].data.Length0
  {
    if layers == [] then []
    else UnitCounts(layers[..|layers| - 1]) + [layers[|layers| - 1].data.Length0]
  }

  /** The index of the first layer, given the layers' unit counts and their
      common number of segments, on which hardcoding with `init` raises, or
      the number of layers if none does. */
  function FirstFailure(init: string, numContexts: nat, numSegments: nat, unitCounts: seq<nat>): (k: nat)
    ensures k <= |unitCounts|
    ensures forall j :: 0 <= j < k ==> HardcodeOutcome(init, numContexts, unitCounts[j], numSegments) == Pass
    ensures k < |unitCounts| ==> HardcodeOutcome(init, numContexts, unitCounts[k], numSegments).Fail?
  {
    if unitCounts == [] then 0
    else if HardcodeOutcome(init, numContexts, unitCounts[0], numSegments).Fail? then 0
    else 1 + FirstFailure(init, numContexts, numSegments, unitCounts[1..])
  }

  /** `DendriticMLP.hardcode_dendritic_weights(context_vectors, init)`: when
      the network has dendrite segments, hardcode every hidden layer in order,
      each with its own draws; the first layer that raises stops the loop, the
      layers before it keep their new tables and the later ones are untouched.
      Every layer is built with the network's `num_segments` segments. A
      network without segments is left as it is whatever `init`, the contexts
      and the draws are. */
  method HardcodeDendriticWeights(numSegments: nat, layers: seq<DendriteParameter>,
                                  contexts: seq<seq<real>>, init: string, draws: seq<Draws>)
    returns (r: Outcome<HardcodeError>)
    requires |draws| == |layers|
    requires forall j, l :: 0 <= j < l < |layers| ==> layers[j] != layers[l]
    requires forall j :: 0 <= j < |layers| ==> layers[j].Valid()
    requires numSegments > 0 ==> forall j :: 0 <= j < |layers| ==>
      && layers[j].data.Length1 == numSegments
      && (init == "overlapping" || init == "non_overlapping" ==> Rectangular(contexts, layers[j].data.Length2))
      && DrawsFit(draws[j], init, |contexts|, layers[j].data.Length0)
    modifies layers
    ensures forall j :: 0 <= j < |layers| ==>
      && layers[j].Valid()
      && layers[j].data.Length0 == old(layers[j].data.Length0)
      && layers[j].data.Length1 == old(layers[j].data.Length1)
      && layers[j].data.Length2 == old(layers[j].data.Length2)
    ensures numSegments == 0 ==>
      r == Pass && forall j :: 0 <= j < |layers| ==> layers[j].data == old(layers[j].data)
    ensures numSegments > 0 ==>
      var k := FirstFailure(init, |contexts|, numSegments, old(UnitCounts(layers)));
      && r == (if k < |layers| then HardcodeOutcome(init, |contexts|, old(layers[k].data.Length0), numSegments)
               else Pass)
      && (forall j :: 0 <= j < k ==> layers[j].Hardcoded(contexts, init, draws[j]))
      && (forall j :: k <= j < |layers| ==> layers[j].data == old(layers[j].data))
  {
    if numSegments > 0 {
      ghost var counts := UnitCounts(layers);
      ghost var k := FirstFailure(init, |contexts|, numSegments, counts);
      for j := 0 to |layers|
        invariant j <= k
        invariant forall l :: 0 <= l < |layers| ==>
          && layers[l].Valid()
          && layers[l].data.Length0 == old(layers[l].data.Length0)
          && layers[l].data.Length1 == old(layers[l].data.Length1)
          && layers[l].data.Length2 == old(layers[l].data.Length2)
        invariant forall l :: 0 <= l < j ==> layers[l].Hardcoded(contexts, init, draws[l])
        invariant forall l :: j <= l < |layers| ==> layers[l].data == old(layers[l].data)
        invariant forall l :: j <= l < |layers| ==>
          && (init == "overlapping" || init == "non_overlapping" ==> Rectangular(contexts, layers[l].data.Length2))
          && DrawsFit(draws[l], init, |contexts|, layers[l].data.Length0)
      {
        label Unchanged:
        assert layers[j].data.Length1 == numSegments && layers[j].data.Length0 == counts[j];
        var outcome := layers[j].Hardcode(contexts, init, draws[j]);
        assert outcome == HardcodeOutcome(init, |contexts|, counts[j], numSegments);
        if outcome.Fail? {
          assert j == k;
          return outcome;
        }
        forall l | 0 <= l < j
          ensures layers[l].Hardcoded(contexts, init, draws[l])
        {
          assert layers[l] != layers[j];
          assert old@Unchanged(layers[l].Hardcoded(contexts, init, draws[l]));
        }
      }
    }
    return Pass;
  }
}
