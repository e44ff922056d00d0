/**
 * What `DendriticMLP._hardcode_dendritic_weights` writes into a
 * `num_units x num_segments x dim_context` dendrite weight table, stated as
 * functions of the context vectors and of the random draws that the source
 * takes from `torch.randperm` (here supplied by the caller).
 */
module HardcodeSpec {

  /** Weight of every entry of a segment that no context was written into
      in "overlapping" mode. */
  const UnusedWeight: real := -0.95

  /** Every context vector has `dimContext` entries (the context tensor is 2-D). */
  predicate Rectangular(contexts: seq<seq<real>>, dimContext: nat) {
    forall c :: 0 <= c < |contexts| ==> |contexts[c]| == dimContext
  }

  // ---------------------------------------------------------------------------
  // "overlapping" mode
  // ---------------------------------------------------------------------------

  /** `int(0.05 * numUnits)`: the number of units each context selects. */
  function UnitsPerContext(numUnits: nat): (k: nat)
    ensures 20 * k <= numUnits < 20 * (k + 1)
  {
    numUnits / 20
  }

  /** `sel` is a prefix of length k of a permutation of the unit indices. */
  predicate IsSelection(sel: seq<nat>, k: nat, numUnits: nat) {
    && |sel| == k
    && (forall j :: 0 <= j < |sel| ==> sel[j] < numUnits)
    && (forall j, l :: 0 <= j < l < |sel| ==> sel[j] != sel[l])
  }

  /** One selection per context, each of `UnitsPerContext(numUnits)` distinct units. */
  predicate AreSelections(sels: seq<seq<nat>>, numContexts: nat, numUnits: nat) {
    && |sels| == numContexts
    && forall c :: 0 <= c < |sels| ==> IsSelection(sels[c], UnitsPerContext(numUnits), numUnits)
  }

  /** The contexts, in increasing order, whose selection contains unit `i`. */
  function ContextsSelecting(sels: seq<seq<nat>>, i: nat): (cs: seq<nat>)
    ensures |cs| <= |sels|
    ensures forall j :: 0 <= j < |cs| ==> cs[j] < |sels| && i in sels[cs[j]]
    ensures forall j, l :: 0 <= j < l < |cs| ==> cs[j] < cs[l]
    decreases |sels|
  {
    if sels == [] then []
    else
      var last := |sels| - 1;
      ContextsSelecting(sels[..last], i) + (if i in sels[last] then [last] else [])
  }

  /** The number of segments of unit `i` that hold a context: the per-unit
      counter of the source, which never exceeds `numSegments`. */
  function SegmentsUsed(sels: seq<seq<nat>>, numSegments: nat, i: nat): (n: nat)
    ensures n <= numSegments && n <= |ContextsSelecting(sels, i)|
    ensures n < numSegments ==> n == |ContextsSelecting(sels, i)|
  {
    var selecting := |ContextsSelecting(sels, i)|;
    if selecting < numSegments then selecting else numSegments
  }

  /** Entry `d` of segment `s` of unit `i` after the contexts of `sels` were
      processed in order: the `(s+1)`-th context that selected `i`, or the
      unused weight when fewer than `s+1` contexts got a segment of `i`. */
  function OverlappingWeight(contexts: seq<seq<real>>, sels: seq<seq<nat>>,
                             numSegments: nat, i: nat, s: nat, d: nat): real
    requires |sels| <= |contexts|
    requires forall c :: 0 <= c < |contexts| ==> d < |contexts[c]|
  {
    var cs := ContextsSelecting(sels, i);
    if s < SegmentsUsed(sels, numSegments, i) then contexts[cs[s]][d] else UnusedWeight
  }

  /** Segment `s` of unit `i` as a vector over the context dimension. */
  function OverlappingRow(contexts: seq<seq<real>>, sels: seq<seq<nat>>,
                          numSegments: nat, i: nat, s: nat, dimContext: nat): (row: seq<real>)
    requires |sels| <= |contexts|
    requires Rectangular(contexts, dimContext)
    ensures |row| == dimContext
  {
    seq(dimContext, d requires 0 <= d < dimContext =>
      OverlappingWeight(contexts, sels, numSegments, i, s, d))
  }

  /** A unit is selected by a context exactly when that context is among
      `ContextsSelecting` for it. */
  lemma {:induction false} ContextsSelectingComplete(sels: seq<seq<nat>>, i: nat, c: nat)
    requires c < |sels|
    ensures c in ContextsSelecting(sels, i) <==> i in sels[c]
  {
    var last := |sels| - 1;
    assert sels[..last][..] == sels[..last];
    if c < last {
      assert sels[..last][c] == sels[c];
      ContextsSelectingComplete(sels[..last], i, c);
    } else {
      var prior := ContextsSelecting(sels[..last], i);
      assert forall j :: 0 <= j < |prior| ==> prior[j] < last;
    }
  }

  /** A unit that no context selected is selected by no context: the list of
      contexts that got one of its segments is empty. */
  lemma {:induction false} NoSelectionNoSegments(sels: seq<seq<nat>>, i: nat)
    requires forall c :: 0 <= c < |sels| ==> i !in sels[c]
    ensures ContextsSelecting(sels, i) == []
  {
    if sels != [] {
      var last := |sels| - 1;
      assert forall c :: 0 <= c < last ==> sels[..last][c] == sels[c];
      NoSelectionNoSegments(sels[..last], i);
    }
  }

  /** Processing more contexts only extends the list of contexts that selected a unit. */
  lemma {:induction false} ContextsSelectingPrefix(sels: seq<seq<nat>>, m: nat, i: nat)
    requires m <= |sels|
    ensures ContextsSelecting(sels[..m], i) <= ContextsSelecting(sels, i)
    decreases |sels|
  {
    if m < |sels| {
      var last := |sels| - 1;
      assert sels[..last][..m] == sels[..m];
      ContextsSelectingPrefix(sels[..last], m, i);
    } else {
      assert sels[..m] == sels;
    }
  }

  /** Context `c` selecting unit `i` while fewer than `numSegments` earlier
      contexts did lands in segment `s` = that number of earlier contexts,
      and stays there whatever later contexts select. */
  lemma OverlappingContextKept(contexts: seq<seq<real>>, sels: seq<seq<nat>>,
                               numSegments: nat, i: nat, c: nat, d: nat)
    requires |sels| <= |contexts| && c < |sels|
    requires forall c' :: 0 <= c' < |contexts| ==> d < |contexts[c']|
    requires i in sels[c]
    requires |ContextsSelecting(sels[..c], i)| < numSegments
    ensures OverlappingWeight(contexts, sels, numSegments, i, |ContextsSelecting(sels[..c], i)|, d)
         == contexts[c][d]
  {
    var s := |ContextsSelecting(sels[..c], i)|;
    assert sels[..c + 1] == sels[..c] + [sels[c]];
    SegmentsUsedAppend(sels[..c], sels[c], numSegments, i);
    ContextsSelectingPrefix(sels, c + 1, i);
    var cs := ContextsSelecting(sels, i);
    assert ContextsSelecting(sels[..c + 1], i) <= cs;
    assert cs[s] == c;
  }

  /** Processing one more context (`sel`) raises the counter of unit `i`
      by one exactly when the context selects `i` and `i` still has a free
      segment; a unit whose segments are all taken is skipped. */
  lemma SegmentsUsedAppend(prior: seq<seq<nat>>, sel: seq<nat>, numSegments: nat, i: nat)
    ensures ContextsSelecting(prior + [sel], i)
         == ContextsSelecting(prior, i) + (if i in sel then [|prior|] else [])
    ensures SegmentsUsed(prior + [sel], numSegments, i)
         == if i in sel && SegmentsUsed(prior, numSegments, i) < numSegments
            then SegmentsUsed(prior, numSegments, i) + 1
            else SegmentsUsed(prior, numSegments, i)
  {
    assert (prior + [sel])[..|prior|] == prior;
  }

  /** Processing one more context (`sel`) changes the weights of unit `i`
      only when the context selects `i` and `i` still has a free segment:
      then the next free segment receives that context. A unit whose
      segments are all taken keeps its weights. */
  lemma OverlappingAppend(contexts: seq<seq<real>>, prior: seq<seq<nat>>, sel: seq<nat>,
                          numSegments: nat, i: nat, s: nat, d: nat)
    requires |prior| < |contexts|
    requires forall c :: 0 <= c < |contexts| ==> d < |contexts[c]|
    ensures OverlappingWeight(contexts, prior + [sel], numSegments, i, s, d)
         == if i in sel && s == SegmentsUsed(prior, numSegments, i) < numSegments
            then contexts[|prior|][d]
            else OverlappingWeight(contexts, prior, numSegments, i, s, d)
  {
  }

  // ---------------------------------------------------------------------------
  // "non_overlapping" mode
  // ---------------------------------------------------------------------------

  /** One context index per unit (`torch.randperm(num_contexts)[0]`); with no
      contexts to pick from, the source fails before using any pick. */
  predicate PicksFit(picks: seq<nat>, numUnits: nat, numContexts: nat) {
    && |picks| == numUnits
    && forall u :: 0 <= u < |picks| ==> numContexts == 0 || picks[u] < numContexts
  }

  /** `1.0 * (x > 0)`: one where the context entry is positive, zero elsewhere. */
  function Indicator(x: real): (r: real)
    ensures r == 1.0 <==> x > 0.0
    ensures r == 0.0 <==> x <= 0.0
  {
    if x > 0.0 then 1.0 else 0.0
  }

  /** Entry `d` of segment `s` of a unit that recognises context `v`:
      segment 0 marks where `v` is positive, every later segment is
      segment 0 shifted down by one. */
  function NonOverlappingWeight(v: seq<real>, s: nat, d: nat): real
    requires d < |v|
  {
    if s == 0 then Indicator(v[d]) else Indicator(v[d]) - 1.0
  }

  /** Segment `s` of a unit that recognises context `v`. */
  function NonOverlappingRow(v: seq<real>, s: nat): (row: seq<real>)
    ensures |row| == |v|
  {
    seq(|v|, d requires 0 <= d < |v| => NonOverlappingWeight(v, s, d))
  }

  // ---------------------------------------------------------------------------
  // What the hardcoded segments do with a context: the dendritic activation
  // of a segment is the dot product of its weights with the context vector.
  // ---------------------------------------------------------------------------

  function Dot(a: seq<real>, b: seq<real>): real
    requires |a| == |b|
  {
    if a == [] then 0.0 else a[0] * b[0] + Dot(a[1..], b[1..])
  }

  predicate NonNegative(u: seq<real>) {
    forall d :: 0 <= d < |u| ==> u[d] >= 0.0
  }

  /** A dot product whose every term is non-positive and one term negative is negative. */
  lemma {:induction false} DotNegative(a: seq<real>, b: seq<real>, k: nat)
    requires |a| == |b| && k < |a|
    requires forall d :: 0 <= d < |a| ==> a[d] * b[d] <= 0.0
    requires a[k] * b[k] < 0.0
    ensures Dot(a, b) < 0.0
  {
    if k == 0 {
      DotNonPositive(a[1..], b[1..]);
    } else {
      DotNegative(a[1..], b[1..], k - 1);
    }
  }

  /** A dot product whose every term is non-positive is non-positive. */
  lemma {:induction false} DotNonPositive(a: seq<real>, b: seq<real>)
    requires |a| == |b|
    requires forall d :: 0 <= d < |a| ==> a[d] * b[d] <= 0.0
    ensures Dot(a, b) <= 0.0
  {
    if a != [] {
      DotNonPositive(a[1..], b[1..]);
    }
  }

  /** A dot product whose every term is non-negative is non-negative. */
  lemma {:induction false} DotNonNegative(a: seq<real>, b: seq<real>)
    requires |a| == |b|
    requires forall d :: 0 <= d < |a| ==> a[d] * b[d] >= 0.0
    ensures Dot(a, b) >= 0.0
  {
    if a != [] {
      DotNonNegative(a[1..], b[1..]);
    }
  }

  /** A dot product whose every term is non-negative and one term positive is positive. */
  lemma {:induction false} DotPositive(a: seq<real>, b: seq<real>, k: nat)
    requires |a| == |b| && k < |a|
    requires forall d :: 0 <= d < |a| ==> a[d] * b[d] >= 0.0
    requires a[k] * b[k] > 0.0
    ensures Dot(a, b) > 0.0
  {
    if k == 0 {
      DotNonNegative(a[1..], b[1..]);
    } else {
      DotPositive(a[1..], b[1..], k - 1);
    }
  }

  /** "overlapping": a segment of a unit that no context was written into
      gives a negative activation for every non-negative context with a
      positive entry, so such a unit stays off. */
  lemma UnusedSegmentRejects(contexts: seq<seq<real>>, sels: seq<seq<nat>>, numSegments: nat,
                             i: nat, s: nat, u: seq<real>, k: nat)
    requires |sels| <= |contexts| && Rectangular(contexts, |u|)
    requires s >= SegmentsUsed(sels, numSegments, i)
    requires NonNegative(u) && k < |u| && u[k] > 0.0
    ensures Dot(OverlappingRow(contexts, sels, numSegments, i, s, |u|), u) < 0.0
  {
    var row := OverlappingRow(contexts, sels, numSegments, i, s, |u|);
    assert forall d :: 0 <= d < |u| ==> row[d] == UnusedWeight;
    DotNegative(row, u, k);
  }

  /** "overlapping": a unit that no context selected has only unused segments,
      so every segment of it gives a negative activation for every
      non-negative context with a positive entry. */
  lemma UnselectedUnitStaysOff(contexts: seq<seq<real>>, sels: seq<seq<nat>>, numSegments: nat,
                               i: nat, s: nat, u: seq<real>, k: nat)
    requires |sels| <= |contexts| && Rectangular(contexts, |u|)
    requires forall c :: 0 <= c < |sels| ==> i !in sels[c]
    requires NonNegative(u) && k < |u| && u[k] > 0.0
    ensures Dot(OverlappingRow(contexts, sels, numSegments, i, s, |u|), u) < 0.0
  {
    NoSelectionNoSegments(sels, i);
    UnusedSegmentRejects(contexts, sels, numSegments, i, s, u, k);
  }

  /** "non_overlapping": segment 0 responds positively to the unit's own
      context whenever that context has a positive entry. */
  lemma PrimarySegmentAcceptsOwnContext(v: seq<real>, k: nat)
    requires k < |v| && v[k] > 0.0
    ensures Dot(NonOverlappingRow(v, 0), v) > 0.0
  {
    var row := NonOverlappingRow(v, 0);
    assert forall d :: 0 <= d < |v| ==> row[d] * v[d] >= 0.0 by {
      forall d | 0 <= d < |v| ensures row[d] * v[d] >= 0.0 {
        assert row[d] == Indicator(v[d]);
      }
    }
    DotPositive(row, v, k);
  }

  /** "non_overlapping": every later segment gives a non-negative activation
      for the unit's own context (it is -1 only where that context is not positive). */
  lemma SecondarySegmentsPassOwnContext(v: seq<real>, s: nat)
    requires s >= 1
    ensures Dot(NonOverlappingRow(v, s), v) >= 0.0
  {
    var row := NonOverlappingRow(v, s);
    assert forall d :: 0 <= d < |v| ==> row[d] * v[d] >= 0.0 by {
      forall d | 0 <= d < |v| ensures row[d] * v[d] >= 0.0 {
        assert row[d] == Indicator(v[d]) - 1.0;
      }
    }
    DotNonNegative(row, v);
  }

  /** "non_overlapping": every later segment gives a negative activation for
      a non-negative context that is positive somewhere the unit's own
      context is not, which turns the unit off for that context. */
  lemma SecondarySegmentsRejectOtherContext(v: seq<real>, s: nat, u: seq<real>, k: nat)
    requires s >= 1 && |u| == |v| && NonNegative(u)
    requires k < |v| && u[k] > 0.0 && v[k] <= 0.0
    ensures Dot(NonOverlappingRow(v, s), u) < 0.0
  {
    var row := NonOverlappingRow(v, s);
    assert forall d :: 0 <= d < |v| ==> row[d] * u[d] <= 0.0 by {
      forall d | 0 <= d < |v| ensures row[d] * u[d] <= 0.0 {
        assert row[d] == Indicator(v[d]) - 1.0;
      }
    }
    assert row[k] == -1.0;
    DotNegative(row, u, k);
  }
}
