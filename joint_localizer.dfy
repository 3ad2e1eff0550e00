/** The array logic of joint prediction: the attention cut, the reflection of
    the shifted candidates across the x = 0 plane, the truncated-quadratic
    density of the clustered candidates with its normalised-density filter,
    and the list of candidate joint pairs handed to the connectivity model.
    The network outputs, the mean-shift clustering, non-maximum suppression
    and flip are inputs here. */
module JointLocalizer {
  import opened Basics

  /** Candidates whose attention is at most this are dropped. */
  const MinAttention: real := 0.001

  function AttentionMask(attn: seq<real>): (m: seq<bool>)
    ensures |m| == |attn|
    ensures forall i :: 0 <= i < |attn| ==> (m[i] <==> attn[i] > MinAttention)
  {
    seq(|attn|, i requires 0 <= i < |attn| => attn[i] > MinAttention)
  }

  /** The shifted candidates and their attention, cut to attention > 1e-3. */
  function AttentionFilter(pts: seq<Vec3>, attn: seq<real>): (r: (seq<Vec3>, seq<real>))
    requires |pts| == |attn|
  {
    var m := AttentionMask(attn);
    (Select(pts, m), Select(attn, m))
  }

  /** What the cut keeps: exactly the candidates with attention above the
      cut, in order, each still paired with its own attention. */
  lemma AttentionFilterKeeps(pts: seq<Vec3>, attn: seq<real>)
    requires |pts| == |attn|
    ensures var (p, a) := AttentionFilter(pts, attn);
      var idx := ArgWhere(AttentionMask(attn));
      && |p| == |a| == |idx|
      && (forall k :: 0 <= k < |idx| ==> p[k] == pts[idx[k]] && a[k] == attn[idx[k]] && a[k] > MinAttention)
      && (forall k, l :: 0 <= k < l < |idx| ==> idx[k] < idx[l])
      && (forall i :: 0 <= i < |attn| ==> (i in idx <==> attn[i] > MinAttention))
  {
    SelectIsMaskedSubsequence(pts, AttentionMask(attn));
    SelectIsMaskedSubsequence(attn, AttentionMask(attn));
  }

  /** `p * [-1, 1, 1]`: the mirror image across the x = 0 plane. */
  function Mirror(p: Vec3): (q: Vec3)
    ensures q.x == -p.x && q.y == p.y && q.z == p.z
  {
    Vec3(-p.x, p.y, p.z)
  }

  lemma MirrorInvolution(p: Vec3)
    ensures Mirror(Mirror(p)) == p
  {
  }

  /** The candidates followed by their mirror images. */
  function Reflect(pts: seq<Vec3>): (r: seq<Vec3>)
    ensures |r| == 2 * |pts|
    ensures forall i :: 0 <= i < |pts| ==> r[i] == pts[i]
    ensures forall i :: 0 <= i < |pts| ==> r[|pts| + i].x == -pts[i].x
    ensures forall i :: 0 <= i < |pts| ==> r[|pts| + i].y == pts[i].y && r[|pts| + i].z == pts[i].z
  {
    pts + seq(|pts|, i requires 0 <= i < |pts| => Mirror(pts[i]))
  }

  /** `np.tile(w, (2, 1))`: the weights repeated once, aligned with `Reflect`. */
  function Tile(w: seq<real>): (r: seq<real>)
    ensures |r| == 2 * |w|
    ensures forall i :: 0 <= i < |w| ==> r[i] == w[i] && r[|w| + i] == w[i]
  {
    w + w
  }

  /** The position of the mirror image of candidate i in the reflected cloud. */
  function MirrorIndex(i: nat, n: nat): nat
  {
    if i < n then n + i else i - n
  }

  /** The reflected cloud is symmetric: the mirror image of every candidate is
      itself a candidate, at `MirrorIndex`, carrying the same weight. */
  lemma ReflectSymmetric(pts: seq<Vec3>, w: seq<real>)
    requires |pts| == |w|
    ensures forall i :: 0 <= i < 2 * |pts| ==>
      && MirrorIndex(i, |pts|) < 2 * |pts|
      && Reflect(pts)[MirrorIndex(i, |pts|)] == Mirror(Reflect(pts)[i])
      && Tile(w)[MirrorIndex(i, |pts|)] == Tile(w)[i]
  {
    var n := |pts|;
    forall i | 0 <= i < 2 * n
      ensures MirrorIndex(i, n) < 2 * n
      ensures Reflect(pts)[MirrorIndex(i, n)] == Mirror(Reflect(pts)[i])
      ensures Tile(w)[MirrorIndex(i, n)] == Tile(w)[i]
    {
      if i >= n {
        MirrorInvolution(pts[i - n]);
      }
    }
  }

  /** The truncated-quadratic kernel `max(bw^2 - |p - q|^2, 0)`. */
  function Kernel(p: Vec3, q: Vec3, bw: real): (k: real)
    ensures k >= 0.0
    ensures k >= Square(bw) - SqDist(p, q)
    ensures k == 0.0 || k == Square(bw) - SqDist(p, q)
  {
    Max2(Square(bw) - SqDist(p, q), 0.0)
  }

  /** Column q of the kernel matrix: the contribution of every candidate. */
  function KernelColumn(pts: seq<Vec3>, q: Vec3, bw: real): (c: seq<real>)
    ensures |c| == |pts|
    ensures forall i :: 0 <= i < |pts| ==> c[i] == Kernel(pts[i], q, bw)
  {
    seq(|pts|, i requires 0 <= i < |pts| => Kernel(pts[i], q, bw))
  }

  /** The density of every candidate: its kernel column summed over all
      candidates (`np.sum(density, axis=0)`). */
  function Densities(pts: seq<Vec3>, bw: real): (d: seq<real>)
    ensures |d| == |pts|
    ensures forall j :: 0 <= j < |pts| ==> d[j] == Sum(KernelColumn(pts, pts[j], bw))
  {
    seq(|pts|, j requires 0 <= j < |pts| => Sum(KernelColumn(pts, pts[j], bw)))
  }

  /** Each candidate contributes `bw^2` to its own density, so every density
      is at least `bw^2`; in particular it is non-negative, and the total of a
      non-empty cloud is at least `bw^2` too, so with a non-zero bandwidth the
      normalised densities are never NaN. */
  lemma DensityLowerBound(pts: seq<Vec3>, bw: real)
    ensures var d := Densities(pts, bw);
      && (forall j :: 0 <= j < |d| ==> d[j] >= Square(bw) && d[j] >= 0.0)
      && (|pts| > 0 ==> Sum(d) >= Square(bw))
  {
    var d := Densities(pts, bw);
    forall j | 0 <= j < |d|
      ensures d[j] >= Square(bw) && d[j] >= 0.0
    {
      var c := KernelColumn(pts, pts[j], bw);
      SumAtLeastEntry(c, j);
      assert c[j] >= Square(bw);
    }
    if |pts| > 0 {
      SumAtLeastEntry(d, 0);
    }
  }

  /** `density / density_sum > threshold`. A zero total makes every ratio NaN,
      and a NaN comparison is false, so nothing is kept. */
  function DensityMask(dens: seq<real>, threshold: real): (m: seq<bool>)
    ensures |m| == |dens|
    ensures forall i :: 0 <= i < |dens| ==>
      (m[i] <==> Sum(dens) != 0.0 && dens[i] / Sum(dens) > threshold)
  {
    var total := Sum(dens);
    seq(|dens|, i requires 0 <= i < |dens| => total != 0.0 && dens[i] / total > threshold)
  }

  datatype Filtered = Filtered(points: seq<Vec3>, attention: seq<real>, density: seq<real>)

  /** The clustered candidates, their attention and their density, all cut
      by the same normalised-density mask. */
  function DensityFilter(pts: seq<Vec3>, attn: seq<real>, bw: real, threshold: real): Filtered
    requires |pts| == |attn|
  {
    var dens := Densities(pts, bw);
    var m := DensityMask(dens, threshold);
    Filtered(Select(pts, m), Select(attn, m), Select(dens, m))
  }

  /** The density filter keeps an order-preserving subsequence: the three
      outputs stay index-aligned with one list of source positions, which are
      exactly the candidates whose share of the total density exceeds the
      threshold. */
  lemma DensityFilterKeeps(pts: seq<Vec3>, attn: seq<real>, bw: real, threshold: real)
    requires |pts| == |attn|
    ensures var f := DensityFilter(pts, attn, bw, threshold);
      var dens := Densities(pts, bw);
      var idx := ArgWhere(DensityMask(dens, threshold));
      && |f.points| == |f.attention| == |f.density| == |idx|
      && (forall k :: 0 <= k < |idx| ==>
            && f.points[k] == pts[idx[k]]
            && f.attention[k] == attn[idx[k]]
            && f.density[k] == dens[idx[k]]
            && f.density[k] / Sum(dens) > threshold)
      && (forall k, l :: 0 <= k < l < |idx| ==> idx[k] < idx[l])
      && (forall i :: 0 <= i < |pts| ==>
            (i in idx <==> Sum(dens) != 0.0 && dens[i] / Sum(dens) > threshold))
  {
    var dens := Densities(pts, bw);
    var m := DensityMask(dens, threshold);
    SelectIsMaskedSubsequence(pts, m);
    SelectIsMaskedSubsequence(attn, m);
    SelectIsMaskedSubsequence(dens, m);
  }

  /** With bandwidth 0 every kernel term is 0, the total is 0 and the filter
      drops every candidate. A caller's bandwidth of 0 is replaced by the
      predicted one (`if not bandwidth`), so this case arises only when the
      predicted bandwidth is itself 0. */
  lemma ZeroBandwidthDropsAll(pts: seq<Vec3>, attn: seq<real>, threshold: real)
    requires |pts| == |attn|
    ensures Sum(Densities(pts, 0.0)) == 0.0
    ensures DensityFilter(pts, attn, 0.0, threshold).points == []
  {
    var dens := Densities(pts, 0.0);
    forall j | 0 <= j < |pts|
      ensures dens[j] == 0.0
    {
      var c := KernelColumn(pts, pts[j], 0.0);
      assert forall i :: 0 <= i < |c| ==> c[i] == 0.0;
      SumNonNegative(c);
    }
    SumNonNegative(dens);
    var m := DensityMask(dens, threshold);
    ArgWhereNone(m);
  }

  /** The pairs `(i, j)` with `from <= i < j < n`, in the order of
      `itertools.combinations(range(n), 2)`. */
  function PairsFrom(from: nat, n: nat): (r: seq<(nat, nat)>)
    decreases n - from
    ensures forall k :: 0 <= k < |r| ==> from <= r[k].0 < r[k].1 < n
    ensures forall k, l :: 0 <= k < l < |r| ==> PairBefore(r[k], r[l])
    ensures forall i: nat, j: nat :: from <= i < j < n ==> (i, j) in r
  {
    if from >= n then []
    else
      var row := seq(n - from - 1, k requires 0 <= k < n - from - 1 => (from, from + 1 + k));
      var rest := PairsFrom(from + 1, n);
      assert forall i: nat, j: nat :: from == i < j < n ==> row[j - from - 1] == (i, j);
      row + rest
  }

  /** Lexicographic order on pairs. */
  predicate PairBefore(p: (nat, nat), q: (nat, nat))
  {
    p.0 < q.0 || (p.0 == q.0 && p.1 < q.1)
  }

  /** The candidate bones: every unordered pair of joints once. */
  function Pairs(n: nat): seq<(nat, nat)>
  {
    PairsFrom(0, n)
  }

  /** The pair list holds a pair exactly when it is `(i, j)` with `i < j < n`,
      strictly increasing in lexicographic order (so each pair once), and has
      `n (n - 1) / 2` entries. */
  lemma PairsExactly(n: nat)
    ensures forall i: nat, j: nat :: (i, j) in Pairs(n) <==> i < j < n
    ensures forall k, l :: 0 <= k < l < |Pairs(n)| ==> PairBefore(Pairs(n)[k], Pairs(n)[l])
    ensures 2 * |Pairs(n)| == n * (n - 1)
  {
    PairsCount(0, n);
  }

  lemma {:induction false} PairsCount(from: nat, n: nat)
    requires from <= n
    decreases n - from
    ensures 2 * |PairsFrom(from, n)| == (n - from) * (n - from - 1)
  {
    if from < n {
      PairsCount(from + 1, n);
      var d := n - from - 1;
      assert |PairsFrom(from, n)| == d + |PairsFrom(from + 1, n)|;
      assert 2 * |PairsFrom(from + 1, n)| == d * (d - 1);
      assert 2 * d + d * (d - 1) == (d + 1) * d;
    }
  }
}
