/** Skinning assembly (`predict_skinning`): for every vertex, five
    nearest-bone slots that feed the skinning network, then the scatter of
    the network's per-slot weights into a vertices x bones matrix, the cut
    of weights below 0.35 of the row maximum and the renormalisation of each
    row. The network, its softmax and the neighbourhood smoothing
    (`post_filter`) are inputs here. */
module SkinningAssembler {
  import opened Basics

  /** Slots per vertex (`num_nearest_bone`). */
  const NumNearestBone: nat := 5

  /** Guards the divisions of the inverse distance and the renormalisation. */
  const Eps: real := 0.0000000001

  /** A weight below this multiple of its row maximum is cut to zero. */
  const KeepRatio: real := 0.35

  /** A bone as its start and end joint (one row of `bones`). */
  datatype Bone = Bone(head: Vec3, tail: Vec3)

  /** The features of one slot: the bone, `1 / (geo + 1e-10)` and the leaf flag. */
  datatype Slot = Slot(bone: Bone, invDist: real, isLeaf: bool)

  /** order lists the bones from near to far: a permutation of the bone ids
      sorting row in non-decreasing order, as `np.argsort` returns (which of
      several equal bones comes first is not fixed). */
  predicate IsArgsort(order: seq<nat>, row: seq<real>)
  {
    && |order| == |row|
    && (forall i :: 0 <= i < |order| ==> order[i] < |row|)
    && (forall i, j :: 0 <= i < j < |order| ==> order[i] != order[j])
    && (forall i, j :: 0 <= i < j < |order| ==> row[order[i]] <= row[order[j]])
  }

  /** The per-vertex inputs: a row of non-negative bone distances per vertex
      with its argsort, over the same non-empty list of bones. */
  predicate SkinInputs(geo: seq<seq<real>>, order: seq<seq<nat>>, bones: seq<Bone>, isLeaf: seq<bool>)
  {
    && |bones| > 0 && |isLeaf| == |bones| && |order| == |geo|
    && (forall v :: 0 <= v < |geo| ==> |geo[v]| == |bones| && IsArgsort(order[v], geo[v]))
    && (forall v, b :: 0 <= v < |geo| && 0 <= b < |bones| ==> geo[v][b] >= 0.0)
  }

  /** The bone behind slot i: the i-th nearest, or the nearest for a padding
      slot beyond the number of bones. */
  function SlotBone(order: seq<nat>, i: nat): nat
    requires |order| > 0
  {
    if i < |order| then order[i] else order[0]
  }

  function SlotFeatures(row: seq<real>, order: seq<nat>, bones: seq<Bone>, isLeaf: seq<bool>): (s: seq<Slot>)
    requires |order| > 0 && IsArgsort(order, row) && |bones| == |row| == |isLeaf|
    requires forall b :: 0 <= b < |row| ==> row[b] >= 0.0
    ensures |s| == NumNearestBone
  {
    seq(NumNearestBone, i requires 0 <= i < NumNearestBone =>
      var b := SlotBone(order, i);
      Slot(bones[b], 1.0 / (row[b] + Eps), isLeaf[b]))
  }

  /** The bone ids of the slots: 0 for a padding slot. */
  function SlotIds(order: seq<nat>): (ids: seq<nat>)
    ensures |ids| == NumNearestBone
  {
    seq(NumNearestBone, i requires 0 <= i < NumNearestBone => if i < |order| then order[i] else 0)
  }

  /** The loss mask: 1 for a real slot, 0 for a padding slot. */
  function SlotMask(bones: nat): (mask: seq<int>)
    ensures |mask| == NumNearestBone
  {
    seq(NumNearestBone, i requires 0 <= i < NumNearestBone => if i < bones then 1 else 0)
  }

  /** The loop over vertices and slots that builds `input_samples`, `skin_nn`
      and `loss_mask` by appending. */
  method BuildSkinInput(geo: seq<seq<real>>, order: seq<seq<nat>>, bones: seq<Bone>, isLeaf: seq<bool>)
    returns (input: seq<seq<Slot>>, nn: seq<seq<nat>>, mask: seq<seq<int>>)
    requires SkinInputs(geo, order, bones, isLeaf)
    ensures |input| == |nn| == |mask| == |geo|
    ensures forall v :: 0 <= v < |geo| ==>
      && input[v] == SlotFeatures(geo[v], order[v], bones, isLeaf)
      && nn[v] == SlotIds(order[v])
      && mask[v] == SlotMask(|bones|)
  {
    input, nn, mask := [], [], [];
    var v := 0;
    while v < |geo|
      invariant 0 <= v <= |geo|
      invariant |input| == |nn| == |mask| == v
      invariant forall u :: 0 <= u < v ==>
        && input[u] == SlotFeatures(geo[u], order[u], bones, isLeaf)
        && nn[u] == SlotIds(order[u])
        && mask[u] == SlotMask(|bones|)
    {
      var row, near := geo[v], order[v];
      var sample: seq<Slot> := [];
      var ids: seq<nat> := [];
      var m: seq<int> := [];
      var i := 0;
      while i < NumNearestBone
        invariant 0 <= i <= NumNearestBone
        invariant |sample| == |ids| == |m| == i
        invariant forall k :: 0 <= k < i ==>
          && sample[k] == SlotFeatures(row, near, bones, isLeaf)[k]
          && ids[k] == SlotIds(near)[k]
          && m[k] == SlotMask(|bones|)[k]
      {
        if i >= |bones| {
          var b := near[0];
          sample := sample + [Slot(bones[b], 1.0 / (row[b] + Eps), isLeaf[b])];
          ids := ids + [0];
          m := m + [0];
        } else {
          var b := near[i];
          sample := sample + [Slot(bones[b], 1.0 / (row[b] + Eps), isLeaf[b])];
          ids := ids + [b];
          m := m + [1];
        }
        i := i + 1;
      }
      input := input + [sample];
      nn := nn + [ids];
      mask := mask + [m];
      v := v + 1;
    }
  }

  function CountOnes(s: seq<int>): nat
  {
    if |s| == 0 then 0 else (if s[0] == 1 then 1 else 0) + CountOnes(s[1..])
  }

  lemma {:induction false} CountOnesPrefix(s: seq<int>, n: nat)
    requires n <= |s|
    requires forall i :: 0 <= i < |s| ==> (s[i] == 1 <==> i < n)
    ensures CountOnes(s) == n
  {
    if |s| > 0 {
      var t := s[1..];
      if n > 0 {
        CountOnesPrefix(t, n - 1);
      } else {
        CountOnesPrefix(t, 0);
      }
    }
  }

  /** The slots of one vertex:
      - exactly `min(5, B)` of them are masked in;
      - the masked slots name distinct bones, from near to far;
      - a padding slot names bone 0 but carries the features of the nearest bone;
      - every slot names a valid bone;
      - a masked slot carries its own bone's features;
      - no bone left out of the slots is nearer than a masked one. */
  lemma SlotsWellFormed(row: seq<real>, order: seq<nat>, bones: seq<Bone>, isLeaf: seq<bool>)
    requires |order| > 0 && IsArgsort(order, row) && |bones| == |row| == |isLeaf|
    requires forall b :: 0 <= b < |row| ==> row[b] >= 0.0
    ensures var ids, mask, feats := SlotIds(order), SlotMask(|bones|), SlotFeatures(row, order, bones, isLeaf);
      && CountOnes(mask) == (if |bones| < NumNearestBone then |bones| else NumNearestBone)
      && (forall i, j :: 0 <= i < j < NumNearestBone && mask[i] == 1 && mask[j] == 1 ==>
            ids[i] != ids[j] && row[ids[i]] <= row[ids[j]])
      && (forall i :: 0 <= i < NumNearestBone && mask[i] == 0 ==>
            ids[i] == 0 && feats[i] == feats[0] && feats[i].bone == bones[order[0]])
      && (forall i :: 0 <= i < NumNearestBone ==> ids[i] < |bones| && (mask[i] == 0 || mask[i] == 1))
      && (forall i :: 0 <= i < NumNearestBone && mask[i] == 1 ==>
            feats[i] == Slot(bones[ids[i]], 1.0 / (row[ids[i]] + Eps), isLeaf[ids[i]]))
      && (forall i, p :: 0 <= i < NumNearestBone && mask[i] == 1 && NumNearestBone <= p < |order| ==>
            row[ids[i]] <= row[order[p]])
  {
    var mask := SlotMask(|bones|);
    CountOnesPrefix(mask, if |bones| < NumNearestBone then |bones| else NumNearestBone);
  }

  /** The network output multiplied by the loss mask (`skin_pred * loss_mask`). */
  function MaskedPrediction(pred: seq<real>, mask: seq<int>): (r: seq<real>)
    requires |pred| == |mask|
    ensures |r| == |pred|
    ensures forall i :: 0 <= i < |pred| ==> (mask[i] == 0 ==> r[i] == 0.0) && (mask[i] == 1 ==> r[i] == pred[i])
  {
    seq(|pred|, i requires 0 <= i < |pred| => pred[i] * (mask[i] as real))
  }

  /** The row after the first k slot writes into a zero row of width B. */
  function ScatterPrefix(vals: seq<real>, ids: seq<nat>, bones: nat, k: nat): (row: seq<real>)
    requires k <= |vals| == |ids|
    requires forall i :: 0 <= i < |ids| ==> ids[i] < bones
    ensures |row| == bones
  {
    if k == 0 then seq(bones, b => 0.0)
    else ScatterPrefix(vals, ids, bones, k - 1)[ids[k - 1] := vals[k - 1]]
  }

  function ScatterRow(vals: seq<real>, ids: seq<nat>, bones: nat): (row: seq<real>)
    requires |vals| == |ids|
    requires forall i :: 0 <= i < |ids| ==> ids[i] < bones
    ensures |row| == bones
  {
    ScatterPrefix(vals, ids, bones, |vals|)
  }

  /** The double loop writing `skin_pred_full[v, skin_nn[v, k]]` slot by slot. */
  method ScatterPredictions(pred: seq<seq<real>>, nn: seq<seq<nat>>, bones: nat) returns (full: seq<seq<real>>)
    requires |pred| == |nn|
    requires forall v :: 0 <= v < |pred| ==> |pred[v]| == |nn[v]| && forall k :: 0 <= k < |nn[v]| ==> nn[v][k] < bones
    ensures |full| == |pred|
    ensures forall v :: 0 <= v < |pred| ==> full[v] == ScatterRow(pred[v], nn[v], bones)
  {
    var rows := |pred|;
    var a := new real[rows, bones]((v, b) => 0.0);
    var v := 0;
    while v < rows
      invariant 0 <= v <= rows
      invariant forall u, b :: 0 <= u < v && 0 <= b < bones ==> a[u, b] == ScatterRow(pred[u], nn[u], bones)[b]
      invariant forall u, b :: v <= u < rows && 0 <= b < bones ==> a[u, b] == 0.0
    {
      var k := 0;
      while k < |nn[v]|
        invariant 0 <= k <= |nn[v]|
        invariant forall u, b :: 0 <= u < v && 0 <= b < bones ==> a[u, b] == ScatterRow(pred[u], nn[u], bones)[b]
        invariant forall u, b :: v < u < rows && 0 <= b < bones ==> a[u, b] == 0.0
        invariant forall b :: 0 <= b < bones ==> a[v, b] == ScatterPrefix(pred[v], nn[v], bones, k)[b]
      {
        a[v, nn[v][k]] := pred[v][k];
        k := k + 1;
      }
      v := v + 1;
    }
    full := seq(rows, u requires 0 <= u < rows reads a => seq(bones, b requires 0 <= b < bones reads a => a[u, b]));
    assert forall u :: 0 <= u < rows ==> full[u] == ScatterRow(pred[u], nn[u], bones);
  }

  /** Column b after the scatter holds the value of the last slot naming b,
      and 0 when no slot names it. */
  lemma {:induction false} LastWriteWins(vals: seq<real>, ids: seq<nat>, bones: nat, k: nat, b: nat)
    requires k <= |vals| == |ids|
    requires forall i :: 0 <= i < |ids| ==> ids[i] < bones
    requires b < bones
    ensures (forall i :: 0 <= i < k ==> ids[i] != b) ==> ScatterPrefix(vals, ids, bones, k)[b] == 0.0
    ensures forall i :: 0 <= i < k && ids[i] == b && (forall j :: i < j < k ==> ids[j] != b) ==>
      ScatterPrefix(vals, ids, bones, k)[b] == vals[i]
  {
    if k > 0 {
      LastWriteWins(vals, ids, bones, k - 1, b);
    }
  }

  /** With fewer than five bones the padding slots come last and name bone 0
      with a masked-out weight of 0, so bone 0 always ends at weight 0, even
      when it is the nearest bone. */
  lemma PaddingErasesBoneZero(pred: seq<real>, order: seq<nat>, bones: nat)
    requires 0 < bones < NumNearestBone && |order| == bones && |pred| == NumNearestBone
    requires forall i :: 0 <= i < bones ==> order[i] < bones
    ensures ScatterRow(MaskedPrediction(pred, SlotMask(bones)), SlotIds(order), bones)[0] == 0.0
  {
    var vals := MaskedPrediction(pred, SlotMask(bones));
    var ids := SlotIds(order);
    LastWriteWins(vals, ids, bones, NumNearestBone, 0);
    var last := NumNearestBone - 1;
    assert ids[last] == 0 && vals[last] == 0.0;
  }

  /** The cut below `0.35 * max` of the row (the row is not empty). */
  function ThresholdRow(row: seq<real>): (r: seq<real>)
    requires |row| > 0
    ensures |r| == |row|
  {
    var cut := Max(row) * KeepRatio;
    seq(|row|, b requires 0 <= b < |row| => if row[b] < cut then 0.0 else row[b])
  }

  /** What the cut keeps: every entry either becomes 0 or is kept unchanged,
      it is kept exactly when it reaches `0.35 *` the row maximum, and so the
      maximum itself always survives. */
  lemma ThresholdKeepsLarge(row: seq<real>)
    requires |row| > 0
    ensures var r := ThresholdRow(row);
      && (forall b :: 0 <= b < |row| ==> r[b] == 0.0 || r[b] == row[b])
      && (forall b :: 0 <= b < |row| && r[b] != 0.0 ==> r[b] >= KeepRatio * Max(row))
      && (forall b :: 0 <= b < |row| ==> (row[b] >= KeepRatio * Max(row) ==> r[b] == row[b]))
      && (Max(row) >= 0.0 ==> exists b :: 0 <= b < |row| && r[b] == Max(row))
  {
    if Max(row) >= 0.0 {
      var b :| 0 <= b < |row| && row[b] == Max(row);
      assert row[b] >= KeepRatio * Max(row);
    }
  }

  /** `row / (row.sum() + 1e-10)`. */
  function NormalizeRow(row: seq<real>): (r: seq<real>)
    requires Sum(row) + Eps != 0.0
    ensures |r| == |row|
  {
    var d := Sum(row) + Eps;
    seq(|row|, b requires 0 <= b < |row| => row[b] / d)
  }

  lemma DivBelowOne(s: real, d: real)
    requires 0.0 <= s < d
    ensures 0.0 <= s / d < 1.0
  {
  }

  /** A non-negative row renormalises to a non-negative row whose sum is
      `S / (S + 1e-10)`, hence below 1, and an all-zero row stays all-zero. */
  lemma NormalizeRowSum(row: seq<real>)
    requires forall b :: 0 <= b < |row| ==> row[b] >= 0.0
    ensures Sum(row) >= 0.0
    ensures var r := NormalizeRow(row);
      && (forall b :: 0 <= b < |row| ==> r[b] >= 0.0)
      && Sum(r) * (Sum(row) + Eps) == Sum(row)
      && Sum(r) < 1.0
      && ((forall b :: 0 <= b < |row| ==> row[b] == 0.0) ==> forall b :: 0 <= b < |row| ==> r[b] == 0.0)
  {
    SumNonNegative(row);
    var d := Sum(row) + Eps;
    var r := NormalizeRow(row);
    SumDivided(row, d);
    assert r == seq(|row|, i requires 0 <= i < |row| => row[i] / d);
    DivBelowOne(Sum(row), d);
    forall b | 0 <= b < |row|
      ensures r[b] >= 0.0
    {
      DivBelowOne(row[b], d) by {
        SumAtLeastEntry(row, b);
      }
    }
  }

  /** Cutting and then renormalising a non-negative row keeps it
      non-negative with a sum below 1, and keeps every surviving weight in
      proportion: an entry that was cut is 0, and a survivor is its
      post-filter weight over the cut row's total plus `1e-10`. */
  lemma ThresholdThenNormalize(row: seq<real>)
    requires |row| > 0 && forall b :: 0 <= b < |row| ==> row[b] >= 0.0
    ensures var t := ThresholdRow(row);
      Sum(t) >= 0.0 &&
      var r := NormalizeRow(t);
      && (forall b :: 0 <= b < |row| ==> r[b] >= 0.0)
      && Sum(r) < 1.0
      && (forall b :: 0 <= b < |row| ==> (t[b] == 0.0 ==> r[b] == 0.0) && (t[b] != 0.0 ==> r[b] == row[b] / (Sum(t) + Eps)))
  {
    var t := ThresholdRow(row);
    assert forall b :: 0 <= b < |t| ==> t[b] >= 0.0 by {
      ThresholdKeepsLarge(row);
    }
    NormalizeRowSum(t);
    var d := Sum(t) + Eps;
    var r := NormalizeRow(t);
    forall b | 0 <= b < |row|
      ensures t[b] == 0.0 ==> r[b] == 0.0
      ensures t[b] != 0.0 ==> r[b] == row[b] / d
    {
      assert r[b] == t[b] / d;
    }
  }
}
