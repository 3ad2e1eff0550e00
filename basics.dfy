/** Value types and sequence helpers shared by every stage of the rig pipeline:
    3-vectors over the reals, an Option, the maximum and sum of a row of reals,
    and the index list of a boolean mask (what `np.argwhere(mask)` and
    `array[mask]` compute). */
module Basics {

  datatype Option<T> = None | Some(value: T)

  /** A point or direction in the canonical space. */
  datatype Vec3 = Vec3(x: real, y: real, z: real)

  function Add(a: Vec3, b: Vec3): Vec3 { Vec3(a.x + b.x, a.y + b.y, a.z + b.z) }

  function Sub(a: Vec3, b: Vec3): Vec3 { Vec3(a.x - b.x, a.y - b.y, a.z - b.z) }

  function Scale(a: Vec3, k: real): Vec3 { Vec3(a.x * k, a.y * k, a.z * k) }

  function Square(t: real): (s: real)
    ensures s >= 0.0
  {
    assert t < 0.0 ==> t * t == (-t) * (-t);
    t * t
  }

  /** Squared Euclidean distance, as `np.sum((a - b) ** 2)`. */
  function SqDist(a: Vec3, b: Vec3): (d: real)
    ensures d >= 0.0
    ensures a == b ==> d == 0.0
  {
    Square(a.x - b.x) + Square(a.y - b.y) + Square(a.z - b.z)
  }

  function Max2(a: real, b: real): real { if a >= b then a else b }

  /** Largest entry of a non-empty row, as Python's `max` and `np.max`. */
  function Max(s: seq<real>): (m: real)
    requires |s| > 0
    ensures forall i :: 0 <= i < |s| ==> s[i] <= m
    ensures exists i :: 0 <= i < |s| && s[i] == m
  {
    if |s| == 1 then s[0]
    else
      var t := Max(s[1..]);
      assert forall i :: 1 <= i < |s| ==> s[i] == s[1..][i - 1];
      if s[0] >= t then s[0] else t
  }

  /** Sum of a row, as `np.sum`. */
  function Sum(s: seq<real>): real
  {
    if |s| == 0 then 0.0 else s[0] + Sum(s[1..])
  }

  lemma {:induction false} SumNonNegative(s: seq<real>)
    requires forall i :: 0 <= i < |s| ==> s[i] >= 0.0
    ensures Sum(s) >= 0.0
    ensures Sum(s) == 0.0 <==> forall i :: 0 <= i < |s| ==> s[i] == 0.0
  {
    if |s| > 0 {
      assert forall i :: 1 <= i < |s| ==> s[i] == s[1..][i - 1];
      SumNonNegative(s[1..]);
    }
  }

  /** A non-negative row sums to at least any one of its entries. */
  lemma {:induction false} SumAtLeastEntry(s: seq<real>, k: nat)
    requires forall i :: 0 <= i < |s| ==> s[i] >= 0.0
    requires k < |s|
    ensures Sum(s) >= s[k]
  {
    assert forall i :: 1 <= i < |s| ==> s[i] == s[1..][i - 1];
    SumNonNegative(s[1..]);
    if k > 0 {
      SumAtLeastEntry(s[1..], k - 1);
    }
  }

  /** Dividing every entry by d divides the sum by d. */
  lemma {:induction false} SumDivided(s: seq<real>, d: real)
    requires d != 0.0
    ensures Sum(seq(|s|, i requires 0 <= i < |s| => s[i] / d)) == Sum(s) / d
  {
    var t := seq(|s|, i requires 0 <= i < |s| => s[i] / d);
    if |s| > 0 {
      assert t[1..] == seq(|s[1..]|, i requires 0 <= i < |s[1..]| => s[1..][i] / d);
      SumDivided(s[1..], d);
      assert Sum(t) == s[0] / d + Sum(s[1..]) / d;
    }
  }

  /** The ascending list of the positions i >= from at which mask holds. */
  function ArgWhereFrom(mask: seq<bool>, from: nat): (idx: seq<nat>)
    requires from <= |mask|
    decreases |mask| - from
    ensures forall k :: 0 <= k < |idx| ==> from <= idx[k] < |mask| && mask[idx[k]]
    ensures forall k, l :: 0 <= k < l < |idx| ==> idx[k] < idx[l]
    ensures forall i :: from <= i < |mask| && mask[i] ==> i in idx
  {
    if from == |mask| then []
    else if mask[from] then [from] + ArgWhereFrom(mask, from + 1)
    else ArgWhereFrom(mask, from + 1)
  }

  /** The positions at which mask holds, in ascending order (`np.argwhere(mask)`). */
  function ArgWhere(mask: seq<bool>): (idx: seq<nat>)
    ensures forall k :: 0 <= k < |idx| ==> idx[k] < |mask| && mask[idx[k]]
    ensures forall k, l :: 0 <= k < l < |idx| ==> idx[k] < idx[l]
    ensures forall i :: 0 <= i < |mask| && mask[i] ==> i in idx
  {
    ArgWhereFrom(mask, 0)
  }

  lemma {:induction false} ArgWhereFromNone(mask: seq<bool>, from: nat)
    requires from <= |mask|
    requires forall i :: from <= i < |mask| ==> !mask[i]
    decreases |mask| - from
    ensures ArgWhereFrom(mask, from) == []
  {
    if from < |mask| {
      ArgWhereFromNone(mask, from + 1);
    }
  }

  /** A mask that holds nowhere selects nothing. */
  lemma ArgWhereNone(mask: seq<bool>)
    requires forall i :: 0 <= i < |mask| ==> !mask[i]
    ensures ArgWhere(mask) == []
  {
    ArgWhereFromNone(mask, 0);
  }

  /** The entries of s at which mask holds, in order (`s[mask]` in numpy). */
  function Select<T>(s: seq<T>, mask: seq<bool>): (r: seq<T>)
    requires |s| == |mask|
  {
    var idx := ArgWhere(mask);
    seq(|idx|, k requires 0 <= k < |idx| => s[idx[k]])
  }

  /** `Select` keeps exactly the masked entries, in their original order. */
  lemma SelectIsMaskedSubsequence<T>(s: seq<T>, mask: seq<bool>)
    requires |s| == |mask|
    ensures var idx := ArgWhere(mask);
      && |Select(s, mask)| == |idx|
      && (forall k :: 0 <= k < |idx| ==> Select(s, mask)[k] == s[idx[k]] && mask[idx[k]])
      && (forall k, l :: 0 <= k < l < |idx| ==> idx[k] < idx[l])
      && (forall i :: 0 <= i < |s| ==> (mask[i] <==> i in idx))
  {
  }
}
