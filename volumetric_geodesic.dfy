/** Volumetric-distance assembly (`calc_geodesic_matrix_2`; the older
    `calc_geodesic_matrix` runs the same three steps). For every sample
    vertex and every bone the point-to-bone distance and a visibility bit are
    given; visibility is first pruned per bone by a distance threshold, then
    the distance of every occluded vertex is imputed through its nearest
    visible vertex along the surface, and with subsampling every mesh vertex
    finally takes the row of its nearest subsample. */
module VolumetricGeodesic {
  import opened Basics

  /** A surface geodesic distance, which is infinite between disconnected parts. */
  datatype Geo = Inf | Fin(len: real)

  predicate GeoLe(a: Geo, b: Geo)
  {
    b.Inf? || (a.Fin? && a.len <= b.len)
  }

  predicate GeoLt(a: Geo, b: Geo) { !GeoLe(b, a) }

  /** Added to the bone distance of a vertex that no visible vertex reaches. */
  const FarFallback: real := 8.0

  /** A visible vertex stays visible only within this multiple of the threshold. */
  const PruneFactor: real := 1.3

  predicate IsMatrix<T>(m: seq<seq<T>>, rows: nat, cols: nat)
  {
    |m| == rows && forall r :: 0 <= r < rows ==> |m[r]| == cols
  }

  function Column<T>(m: seq<seq<T>>, c: nat): (col: seq<T>)
    requires forall r :: 0 <= r < |m| ==> c < |m[r]|
    ensures |col| == |m| && forall r :: 0 <= r < |m| ==> col[r] == m[r][c]
  {
    seq(|m|, r requires 0 <= r < |m| => m[r][c])
  }

  /** The rows visible to bone c, ascending (`np.argwhere(vis[:, c] == 1)`). */
  function VisibleRows(vis: seq<seq<bool>>, c: nat): (rows: seq<nat>)
    requires forall r :: 0 <= r < |vis| ==> c < |vis[r]|
    ensures forall k :: 0 <= k < |rows| ==> rows[k] < |vis| && vis[rows[k]][c]
    ensures forall r :: 0 <= r < |vis| && vis[r][c] ==> r in rows
    ensures forall k, l :: 0 <= k < l < |rows| ==> rows[k] < rows[l]
    ensures |rows| == 0 <==> forall r :: 0 <= r < |vis| ==> !vis[r][c]
  {
    var rows := ArgWhere(Column(vis, c));
    assert |rows| > 0 ==> vis[rows[0]][c];
    rows
  }

  function ToRows<T>(a: array2<T>): (m: seq<seq<T>>)
    reads a
    ensures IsMatrix(m, a.Length0, a.Length1)
    ensures forall r, c :: 0 <= r < a.Length0 && 0 <= c < a.Length1 ==> m[r][c] == a[r, c]
  {
    seq(a.Length0, r requires 0 <= r < a.Length0 reads a =>
      seq(a.Length1, c requires 0 <= c < a.Length1 reads a => a[r, c]))
  }

  // ---------------------------------------------------------------------
  // Visibility pruning

  /** The visibility bit after pruning. A bone with no visible vertex is left
      alone (its threshold is never computed); otherwise a vertex farther than
      `1.3 * threshold` from the bone is turned invisible. */
  function PrunedCell(dist: seq<seq<real>>, vis: seq<seq<bool>>, thr: seq<real>, r: nat, c: nat): bool
    requires IsMatrix(dist, |vis|, |thr|) && IsMatrix(vis, |vis|, |thr|)
    requires r < |vis| && c < |thr|
  {
    if |VisibleRows(vis, c)| == 0 then vis[r][c]
    else vis[r][c] && !(dist[r][c] > PruneFactor * thr[c])
  }

  /** The loop over bones that clears the bits of far vertices, one column at
      a time, on a copy of the visibility matrix. */
  method PruneVisibility(dist: seq<seq<real>>, vis: seq<seq<bool>>, thr: seq<real>) returns (pv: seq<seq<bool>>)
    requires IsMatrix(dist, |vis|, |thr|) && IsMatrix(vis, |vis|, |thr|)
    ensures IsMatrix(pv, |vis|, |thr|)
    ensures forall r, c :: 0 <= r < |vis| && 0 <= c < |thr| ==> pv[r][c] == PrunedCell(dist, vis, thr, r, c)
  {
    var rows, cols := |vis|, |thr|;
    var a := new bool[rows, cols]((r, c) requires 0 <= r < rows && 0 <= c < cols => vis[r][c]);
    var b := 0;
    while b < cols
      invariant 0 <= b <= cols
      invariant forall r, c :: 0 <= r < rows && 0 <= c < b ==> a[r, c] == PrunedCell(dist, vis, thr, r, c)
      invariant forall r, c :: 0 <= r < rows && b <= c < cols ==> a[r, c] == vis[r][c]
    {
      PruneColumn(dist, vis, thr, a, b);
      b := b + 1;
    }
    pv := ToRows(a);
  }

  /** One pass of the loop over bones: column b of a is rewritten from the
      original visibility bits to the pruned ones, other columns untouched. */
  method PruneColumn(dist: seq<seq<real>>, vis: seq<seq<bool>>, thr: seq<real>, a: array2<bool>, b: nat)
    requires IsMatrix(dist, |vis|, |thr|) && IsMatrix(vis, |vis|, |thr|)
    requires a.Length0 == |vis| && a.Length1 == |thr| && b < |thr|
    requires forall r :: 0 <= r < |vis| ==> a[r, b] == vis[r][b]
    modifies a
    ensures forall r :: 0 <= r < |vis| ==> a[r, b] == PrunedCell(dist, vis, thr, r, b)
    ensures forall r, c :: 0 <= r < |vis| && 0 <= c < |thr| && c != b ==> a[r, c] == old(a[r, c])
  {
    var visible := VisibleRows(vis, b);
    if |visible| > 0 {
      var bound := PruneFactor * thr[b];
      forall r | 0 <= r < a.Length0 && dist[r][b] > bound {
        a[r, b] := false;
      }
    }
  }

  function PrunedMatrix(dist: seq<seq<real>>, vis: seq<seq<bool>>, thr: seq<real>): (pv: seq<seq<bool>>)
    requires IsMatrix(dist, |vis|, |thr|) && IsMatrix(vis, |vis|, |thr|)
    ensures IsMatrix(pv, |vis|, |thr|)
  {
    seq(|vis|, r requires 0 <= r < |vis| =>
      seq(|thr|, c requires 0 <= c < |thr| => PrunedCell(dist, vis, thr, r, c)))
  }

  /** Pruning only turns bits off; a bit that survives belongs to a vertex
      within `1.3 * threshold` of its bone, unless the bone had no visible
      vertex at all, in which case its column is unchanged. */
  lemma PruneOnlyClears(dist: seq<seq<real>>, vis: seq<seq<bool>>, thr: seq<real>, r: nat, c: nat)
    requires IsMatrix(dist, |vis|, |thr|) && IsMatrix(vis, |vis|, |thr|)
    requires r < |vis| && c < |thr|
    ensures PrunedCell(dist, vis, thr, r, c) ==> vis[r][c]
    ensures PrunedCell(dist, vis, thr, r, c) && (exists v :: 0 <= v < |vis| && vis[v][c]) ==>
      dist[r][c] <= PruneFactor * thr[c]
    ensures (forall v :: 0 <= v < |vis| ==> !vis[v][c]) ==> PrunedCell(dist, vis, thr, r, c) == vis[r][c]
  {
    if exists v :: 0 <= v < |vis| && vis[v][c] {
      var v :| 0 <= v < |vis| && vis[v][c];
      assert v in VisibleRows(vis, c);
    }
  }

  /** A visible vertex no farther than a non-negative threshold always
      survives. A bone therefore keeps a visible vertex whenever its threshold
      reaches one of its visible distances; the threshold itself (a 15th
      percentile) is an input here, so that is not promised for every input. */
  lemma PruneKeepsNear(dist: seq<seq<real>>, vis: seq<seq<bool>>, thr: seq<real>, r: nat, c: nat)
    requires IsMatrix(dist, |vis|, |thr|) && IsMatrix(vis, |vis|, |thr|)
    requires r < |vis| && c < |thr|
    requires vis[r][c] && 0.0 <= dist[r][c] <= thr[c]
    ensures PrunedCell(dist, vis, thr, r, c)
  {
  }

  // ---------------------------------------------------------------------
  // Imputation through the nearest visible vertex

  /** The position in cands of the first entry of row that is smallest, the
      way `np.argmin` scans from the left and keeps a strictly smaller value. */
  function ArgMinGeo(row: seq<Geo>, cands: seq<nat>): (k: nat)
    requires |cands| > 0
    requires forall p :: 0 <= p < |cands| ==> cands[p] < |row|
    ensures k < |cands|
    ensures forall p :: 0 <= p < |cands| ==> GeoLe(row[cands[k]], row[cands[p]])
    ensures forall p :: 0 <= p < k ==> GeoLt(row[cands[k]], row[cands[p]])
    decreases |cands|
  {
    if |cands| == 1 then 0
    else
      var n := |cands| - 1;
      var k := ArgMinGeo(row, cands[..n]);
      assert forall p :: 0 <= p < n ==> cands[..n][p] == cands[p];
      if GeoLt(row[cands[n]], row[cands[k]]) then n else k
  }

  /** The shapes of the imputation inputs: `dist` and `vis` are samples x
      bones, `geo` is samples x samples. */
  predicate Shaped(dist: seq<seq<real>>, vis: seq<seq<bool>>, geo: seq<seq<Geo>>, bones: nat)
  {
    IsMatrix(dist, |dist|, bones) && IsMatrix(vis, |dist|, bones) && IsMatrix(geo, |dist|, |dist|)
  }

  /** The distance of sample r to bone c once occlusion is accounted for:
      - a bone that no vertex sees keeps the raw distances;
      - a visible vertex keeps its own distance;
      - an occluded vertex takes its surface geodesic to the nearest visible
        vertex (the first one, on ties) plus that vertex's distance;
      - if even that geodesic is infinite, `8.0` plus its own distance. */
  function ImputedCell(dist: seq<seq<real>>, vis: seq<seq<bool>>, geo: seq<seq<Geo>>, bones: nat, r: nat, c: nat): real
    requires Shaped(dist, vis, geo, bones) && r < |dist| && c < bones
  {
    var visible := VisibleRows(vis, c);
    if |visible| == 0 || vis[r][c] then dist[r][c]
    else
      var nn := visible[ArgMinGeo(geo[r], visible)];
      match geo[r][nn]
      case Inf => FarFallback + dist[r][c]
      case Fin(g) => g + dist[nn][c]
  }

  /** The visibility-masked distances the imputation starts from (zero where
      occluded). */
  function Seeded(dist: seq<seq<real>>, vis: seq<seq<bool>>, r: nat, c: nat): real
    requires r < |dist| && r < |vis| && c < |dist[r]| && c < |vis[r]|
  {
    if vis[r][c] then dist[r][c] else 0.0
  }

  /** The column loop of the imputation, writing the distance matrix one cell
      at a time; an occluded vertex reads its nearest visible vertex's entry
      from the matrix being written. */
  method ImputeDistances(dist: seq<seq<real>>, vis: seq<seq<bool>>, geo: seq<seq<Geo>>, bones: nat)
    returns (m: seq<seq<real>>)
    requires Shaped(dist, vis, geo, bones)
    ensures IsMatrix(m, |dist|, bones)
    ensures forall r, c :: 0 <= r < |dist| && 0 <= c < bones ==> m[r][c] == ImputedCell(dist, vis, geo, bones, r, c)
  {
    var rows := |dist|;
    var a := new real[rows, bones]((r, c) requires 0 <= r < rows && 0 <= c < bones => Seeded(dist, vis, r, c));
    var c := 0;
    while c < bones
      invariant 0 <= c <= bones
      invariant forall r, c' :: 0 <= r < rows && 0 <= c' < c ==> a[r, c'] == ImputedCell(dist, vis, geo, bones, r, c')
      invariant forall r, c' :: 0 <= r < rows && c <= c' < bones ==> a[r, c'] == Seeded(dist, vis, r, c')
    {
      var visible := VisibleRows(vis, c);
      if |visible| == 0 {
        forall r | 0 <= r < rows {
          a[r, c] := dist[r][c];
        }
      } else {
        ImputeColumn(dist, vis, geo, bones, visible, c, a);
      }
      c := c + 1;
    }
    m := ToRows(a);
  }

  /** The loop over the occluded rows of one column that has visible rows. */
  method ImputeColumn(dist: seq<seq<real>>, vis: seq<seq<bool>>, geo: seq<seq<Geo>>, bones: nat,
                      visible: seq<nat>, c: nat, a: array2<real>)
    requires Shaped(dist, vis, geo, bones) && c < bones
    requires a.Length0 == |dist| && a.Length1 == bones
    requires visible == VisibleRows(vis, c) && |visible| > 0
    requires forall r :: 0 <= r < |dist| ==> a[r, c] == Seeded(dist, vis, r, c)
    modifies a
    ensures forall r, c' :: 0 <= r < |dist| && 0 <= c' < bones && c' != c ==> a[r, c'] == old(a[r, c'])
    ensures forall r :: 0 <= r < |dist| ==> a[r, c] == ImputedCell(dist, vis, geo, bones, r, c)
  {
    ghost var want := ImputedColumn(dist, vis, geo, bones, c);
    var r := 0;
    while r < |dist|
      invariant 0 <= r <= |dist|
      invariant forall v, c' :: 0 <= v < |dist| && 0 <= c' < bones && c' != c ==> a[v, c'] == old(a[v, c'])
      invariant forall v :: 0 <= v < r && !vis[v][c] ==> a[v, c] == want[v]
      invariant forall v :: 0 <= v < |dist| && vis[v][c] ==> a[v, c] == dist[v][c]
    {
      if !vis[r][c] {
        var value := OccludedValue(dist, vis, geo, bones, visible, r, c, a);
        a[r, c] := value;
      }
      r := r + 1;
    }
    forall v | 0 <= v < |dist|
      ensures a[v, c] == ImputedCell(dist, vis, geo, bones, v, c)
    {
      if vis[v][c] {
        VisibleKeepsDistance(dist, vis, geo, bones, v, c);
      }
    }
  }

  /** Column c of the imputed matrix, as a value to compare the loop against.
      A lemma rather than a function, so that the loop's proof sees only
      this contract and not the comprehension behind it. */
  lemma ImputedColumn(dist: seq<seq<real>>, vis: seq<seq<bool>>, geo: seq<seq<Geo>>, bones: nat, c: nat)
    returns (col: seq<real>)
    requires Shaped(dist, vis, geo, bones) && c < bones
    ensures |col| == |dist|
    ensures forall v {:trigger ImputedCell(dist, vis, geo, bones, v, c)} :: 0 <= v < |dist| ==>
      col[v] == ImputedCell(dist, vis, geo, bones, v, c)
  {
    col := seq(|dist|, v requires 0 <= v < |dist| => ImputedCell(dist, vis, geo, bones, v, c));
  }

  lemma VisibleKeepsDistance(dist: seq<seq<real>>, vis: seq<seq<bool>>, geo: seq<seq<Geo>>, bones: nat, r: nat, c: nat)
    requires Shaped(dist, vis, geo, bones) && r < |dist| && c < bones && vis[r][c]
    ensures ImputedCell(dist, vis, geo, bones, r, c) == dist[r][c]
  {
  }

  /** The new entry of occluded vertex r: `dist1 + visible_matrix[nn_visible, c]`,
      read from the matrix being written, or the fallback. */
  method OccludedValue(dist: seq<seq<real>>, vis: seq<seq<bool>>, geo: seq<seq<Geo>>, bones: nat,
                       visible: seq<nat>, r: nat, c: nat, a: array2<real>) returns (value: real)
    requires Shaped(dist, vis, geo, bones) && r < |dist| && c < bones && !vis[r][c]
    requires visible == VisibleRows(vis, c) && |visible| > 0
    requires a.Length0 == |dist| && a.Length1 == bones
    requires forall v :: 0 <= v < |dist| && vis[v][c] ==> a[v, c] == dist[v][c]
    ensures value == ImputedCell(dist, vis, geo, bones, r, c)
  {
    var nn := visible[ArgMinGeo(geo[r], visible)];
    match geo[r][nn] {
      case Inf =>
        value := FarFallback + dist[r][c];
      case Fin(g) =>
        value := g + a[nn, c];
    }
  }

  function ImputedMatrix(dist: seq<seq<real>>, vis: seq<seq<bool>>, geo: seq<seq<Geo>>, bones: nat): (m: seq<seq<real>>)
    requires Shaped(dist, vis, geo, bones)
    ensures IsMatrix(m, |dist|, bones)
  {
    seq(|dist|, r requires 0 <= r < |dist| =>
      seq(bones, c requires 0 <= c < bones => ImputedCell(dist, vis, geo, bones, r, c)))
  }

  /** nn is the lowest-numbered vertex visible to bone c whose surface
      geodesic from r is smallest. */
  predicate IsNearestVisible(vis: seq<seq<bool>>, geo: seq<seq<Geo>>, r: nat, c: nat, nn: nat)
    requires IsMatrix(geo, |vis|, |vis|) && r < |vis|
    requires forall v :: 0 <= v < |vis| ==> c < |vis[v]|
  {
    && nn < |vis| && vis[nn][c]
    && (forall v :: 0 <= v < |vis| && vis[v][c] ==> GeoLe(geo[r][nn], geo[r][v]))
    && (forall v :: 0 <= v < nn && vis[v][c] ==> GeoLt(geo[r][nn], geo[r][v]))
  }

  /** The argmin over the visible list picks the nearest visible vertex. */
  lemma ArgMinIsNearestVisible(vis: seq<seq<bool>>, geo: seq<seq<Geo>>, r: nat, c: nat)
    requires IsMatrix(geo, |vis|, |vis|) && r < |vis|
    requires forall v :: 0 <= v < |vis| ==> c < |vis[v]|
    requires |VisibleRows(vis, c)| > 0
    ensures IsNearestVisible(vis, geo, r, c, VisibleRows(vis, c)[ArgMinGeo(geo[r], VisibleRows(vis, c))])
  {
    var visible := VisibleRows(vis, c);
    var nn := visible[ArgMinGeo(geo[r], visible)];
    forall v | 0 <= v < |vis| && vis[v][c]
      ensures GeoLe(geo[r][nn], geo[r][v])
      ensures v < nn ==> GeoLt(geo[r][nn], geo[r][v])
    {
      ArgMinAgainst(geo[r], visible, v);
    }
  }

  /** The argmin of an ascending candidate list is no worse than any
      candidate and strictly better than every smaller candidate. */
  lemma ArgMinAgainst(row: seq<Geo>, cands: seq<nat>, v: nat)
    requires |cands| > 0
    requires forall p :: 0 <= p < |cands| ==> cands[p] < |row|
    requires forall p, q :: 0 <= p < q < |cands| ==> cands[p] < cands[q]
    requires v in cands
    ensures GeoLe(row[cands[ArgMinGeo(row, cands)]], row[v])
    ensures v < cands[ArgMinGeo(row, cands)] ==> GeoLt(row[cands[ArgMinGeo(row, cands)]], row[v])
  {
    var k := ArgMinGeo(row, cands);
    var p :| 0 <= p < |cands| && cands[p] == v;
    if v < cands[k] {
      assert p < k;
    }
  }

  /** An occluded vertex, stated without reference to how the argmin is
      computed: its value comes from the nearest visible vertex (the
      lowest-numbered one on ties), plus that vertex's own bone distance, or
      is `8.0` plus its own distance when that geodesic is infinite. */
  lemma OccludedFromNearestVisible(dist: seq<seq<real>>, vis: seq<seq<bool>>, geo: seq<seq<Geo>>, bones: nat, r: nat, c: nat)
    requires Shaped(dist, vis, geo, bones) && r < |dist| && c < bones
    requires !vis[r][c] && exists v :: 0 <= v < |dist| && vis[v][c]
    ensures exists nn: nat ::
      && IsNearestVisible(vis, geo, r, c, nn)
      && (ImputedCell(dist, vis, geo, bones, r, c) ==
        if geo[r][nn].Inf? then FarFallback + dist[r][c] else geo[r][nn].len + dist[nn][c])
  {
    var visible := VisibleRows(vis, c);
    var w :| 0 <= w < |dist| && vis[w][c];
    assert w in visible;
    ArgMinIsNearestVisible(vis, geo, r, c);
    var nn := visible[ArgMinGeo(geo[r], visible)];
    assert IsNearestVisible(vis, geo, r, c, nn);
  }

  /** The nearest visible vertex is unique. */
  lemma NearestVisibleUnique(vis: seq<seq<bool>>, geo: seq<seq<Geo>>, r: nat, c: nat, a: nat, b: nat)
    requires IsMatrix(geo, |vis|, |vis|) && r < |vis|
    requires forall v :: 0 <= v < |vis| ==> c < |vis[v]|
    requires IsNearestVisible(vis, geo, r, c, a) && IsNearestVisible(vis, geo, r, c, b)
    ensures a == b
  {
  }

  /** Imputation is not a shortest path through the visible vertices: the
      occluded vertex 2 is nearest (0.1) to visible vertex 0 at distance 0.5
      and gets 0.6, though visible vertex 1 offers 0.2 + 0.3 = 0.5. */
  lemma NearestIsNotShortest()
    ensures var dist := [[0.5], [0.3], [0.7]];
      var vis := [[true], [true], [false]];
      var geo := [[Fin(0.0), Fin(0.3), Fin(0.1)],
                  [Fin(0.3), Fin(0.0), Fin(0.2)],
                  [Fin(0.1), Fin(0.2), Fin(0.0)]];
      && Shaped(dist, vis, geo, 1)
      && ImputedCell(dist, vis, geo, 1, 2, 0) == 0.6
      && geo[2][1].len + dist[1][0] < ImputedCell(dist, vis, geo, 1, 2, 0)
  {
    var dist := [[0.5], [0.3], [0.7]];
    var vis := [[true], [true], [false]];
    var geo := [[Fin(0.0), Fin(0.3), Fin(0.1)],
                [Fin(0.3), Fin(0.0), Fin(0.2)],
                [Fin(0.1), Fin(0.2), Fin(0.0)]];
    assert Shaped(dist, vis, geo, 1);
    assert VisibleRows(vis, 0) == [0, 1] by {
      ExampleVisibleRows();
    }
    assert ArgMinGeo(geo[2], [0, 1]) == 0 by {
      assert [0, 1][..1] == [0];
    }
  }

  lemma ExampleVisibleRows()
    ensures VisibleRows([[true], [true], [false]], 0) == [0, 1]
  {
    var mask := Column([[true], [true], [false]], 0);
    assert mask == [true, true, false];
    assert ArgWhereFrom(mask, 2) == [];
    assert ArgWhereFrom(mask, 1) == [1];
  }

  /** With non-negative distances and geodesics every imputed entry is
      non-negative. */
  lemma ImputedNonNegative(dist: seq<seq<real>>, vis: seq<seq<bool>>, geo: seq<seq<Geo>>, bones: nat, r: nat, c: nat)
    requires Shaped(dist, vis, geo, bones) && r < |dist| && c < bones
    requires forall v, b :: 0 <= v < |dist| && 0 <= b < bones ==> dist[v][b] >= 0.0
    requires forall u, v :: 0 <= u < |dist| && 0 <= v < |dist| && geo[u][v].Fin? ==> geo[u][v].len >= 0.0
    ensures ImputedCell(dist, vis, geo, bones, r, c) >= 0.0
  {
    var visible := VisibleRows(vis, c);
    if |visible| > 0 && !vis[r][c] {
      var nn := visible[ArgMinGeo(geo[r], visible)];
      assert dist[nn][c] >= 0.0;
    }
  }

  /** When every vertex sees every bone the imputed matrix is the raw distance. */
  lemma AllVisibleKeepsDistance(dist: seq<seq<real>>, vis: seq<seq<bool>>, geo: seq<seq<Geo>>, bones: nat)
    requires Shaped(dist, vis, geo, bones)
    requires forall v, b :: 0 <= v < |dist| && 0 <= b < bones ==> vis[v][b]
    ensures ImputedMatrix(dist, vis, geo, bones) == dist
  {
    var m := ImputedMatrix(dist, vis, geo, bones);
    forall r | 0 <= r < |dist|
      ensures m[r] == dist[r]
    {
      assert forall c :: 0 <= c < bones ==> m[r][c] == dist[r][c];
    }
  }

  // ---------------------------------------------------------------------
  // Propagation from the subsamples to every vertex

  /** The index of the first sample nearest to p in squared Euclidean
      distance (`np.argmin` over one row of `nn_dist`). */
  function NearestSample(p: Vec3, samples: seq<Vec3>): (k: nat)
    requires |samples| > 0
    ensures k < |samples|
    ensures forall j :: 0 <= j < |samples| ==> SqDist(p, samples[k]) <= SqDist(p, samples[j])
    ensures forall j :: 0 <= j < k ==> SqDist(p, samples[k]) < SqDist(p, samples[j])
    decreases |samples|
  {
    if |samples| == 1 then 0
    else
      var n := |samples| - 1;
      var k := NearestSample(p, samples[..n]);
      assert forall j :: 0 <= j < n ==> samples[..n][j] == samples[j];
      if SqDist(p, samples[n]) < SqDist(p, samples[k]) then n else k
  }

  /** How the rows of the distance matrix are chosen: all vertices, or a
      sample of distinct vertex ids of size `min(V, count)`. */
  datatype Sampling = AllVertices | Subsampled(ids: seq<nat>, count: nat)

  predicate ValidSampling(s: Sampling, vertices: nat)
  {
    s.Subsampled? ==>
      && s.count > 0
      && |s.ids| == (if vertices < s.count then vertices else s.count)
      && (forall k :: 0 <= k < |s.ids| ==> s.ids[k] < vertices)
      && (forall k, l :: 0 <= k < l < |s.ids| ==> s.ids[k] != s.ids[l])
  }

  function SampleCount(s: Sampling, vertices: nat): nat
  {
    if s.Subsampled? then |s.ids| else vertices
  }

  function SamplePoints(meshV: seq<Vec3>, ids: seq<nat>): (pts: seq<Vec3>)
    requires forall k :: 0 <= k < |ids| ==> ids[k] < |meshV|
    ensures |pts| == |ids| && forall k :: 0 <= k < |ids| ==> pts[k] == meshV[ids[k]]
  {
    seq(|ids|, k requires 0 <= k < |ids| => meshV[ids[k]])
  }

  /** `surface_geodesic[ids, :][:, ids]`. */
  function SubGeodesic(geo: seq<seq<Geo>>, ids: seq<nat>): (g: seq<seq<Geo>>)
    requires forall k :: 0 <= k < |ids| ==> ids[k] < |geo|
    requires forall u :: 0 <= u < |geo| ==> |geo[u]| == |geo|
    ensures IsMatrix(g, |ids|, |ids|)
    ensures forall k, l :: 0 <= k < |ids| && 0 <= l < |ids| ==> g[k][l] == geo[ids[k]][ids[l]]
  {
    seq(|ids|, k requires 0 <= k < |ids| => seq(|ids|, l requires 0 <= l < |ids| => geo[ids[k]][ids[l]]))
  }

  /** The whole assembly. `dist` and `vis` are the point-to-bone distances and
      visibility bits of the sample vertices, `thr` the per-bone percentile
      thresholds. Without sampling the result is the imputed matrix of the
      pruned visibility; with sampling, row v is the imputed row of the first
      sample nearest to vertex v. */
  method CalcGeodesicMatrix(meshV: seq<Vec3>, surfaceGeo: seq<seq<Geo>>, sampling: Sampling,
                            dist: seq<seq<real>>, vis: seq<seq<bool>>, thr: seq<real>)
    returns (m: seq<seq<real>>)
    requires IsMatrix(surfaceGeo, |meshV|, |meshV|)
    requires ValidSampling(sampling, |meshV|)
    requires IsMatrix(dist, SampleCount(sampling, |meshV|), |thr|)
    requires IsMatrix(vis, SampleCount(sampling, |meshV|), |thr|)
    ensures IsMatrix(m, |meshV|, |thr|)
    ensures sampling.AllVertices? ==>
      m == ImputedMatrix(dist, PrunedMatrix(dist, vis, thr), surfaceGeo, |thr|)
    ensures sampling.Subsampled? ==>
      var pts := SamplePoints(meshV, sampling.ids);
      var sub := ImputedMatrix(dist, PrunedMatrix(dist, vis, thr), SubGeodesic(surfaceGeo, sampling.ids), |thr|);
      forall v :: 0 <= v < |meshV| ==> |pts| > 0 && m[v] == sub[NearestSample(meshV[v], pts)]
  {
    var geo := surfaceGeo;
    if sampling.Subsampled? {
      geo := SubGeodesic(surfaceGeo, sampling.ids);
    }
    var pv := PruneVisibility(dist, vis, thr);
    assert pv == PrunedMatrix(dist, vis, thr) by {
      var want := PrunedMatrix(dist, vis, thr);
      forall r | 0 <= r < |vis|
        ensures pv[r] == want[r]
      {
        assert forall c :: 0 <= c < |thr| ==> pv[r][c] == want[r][c];
      }
    }
    var sub := ImputeDistances(dist, pv, geo, |thr|);
    assert sub == ImputedMatrix(dist, pv, geo, |thr|) by {
      var want := ImputedMatrix(dist, pv, geo, |thr|);
      forall r | 0 <= r < |dist|
        ensures sub[r] == want[r]
      {
        assert forall c :: 0 <= c < |thr| ==> sub[r][c] == want[r][c];
      }
    }
    if sampling.AllVertices? {
      m := sub;
    } else {
      var pts := SamplePoints(meshV, sampling.ids);
      assert |meshV| > 0 ==> |pts| > 0;
      m := seq(|meshV|, v requires 0 <= v < |meshV| => sub[NearestSample(meshV[v], pts)]);
    }
  }

  /** A sampled vertex is nearest to a sample at distance 0 that comes no
      later than itself; when no two vertices share a position, that is the
      vertex itself, so it propagates its own row. */
  lemma SampledVertexKeepsOwnRow(meshV: seq<Vec3>, ids: seq<nat>, k: nat)
    requires forall j :: 0 <= j < |ids| ==> ids[j] < |meshV|
    requires forall i, j :: 0 <= i < j < |ids| ==> ids[i] != ids[j]
    requires k < |ids|
    ensures var n := NearestSample(meshV[ids[k]], SamplePoints(meshV, ids));
      n <= k && SqDist(meshV[ids[k]], meshV[ids[n]]) == 0.0
    ensures (forall u, v :: 0 <= u < |meshV| && 0 <= v < |meshV| && u != v ==> SqDist(meshV[u], meshV[v]) > 0.0) ==>
      NearestSample(meshV[ids[k]], SamplePoints(meshV, ids)) == k
  {
    var pts := SamplePoints(meshV, ids);
    var p := meshV[ids[k]];
    var n := NearestSample(p, pts);
    assert SqDist(p, pts[k]) == 0.0;
    assert SqDist(p, pts[n]) <= 0.0;
  }
}
