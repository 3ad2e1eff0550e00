# bRigNet rig prediction core, modelled in Dafny

bRigNet is a Blender add-on that runs the RigNet networks on a mesh. The
file `rignetconnect.py` turns the networks' raw outputs into a skeleton and
skinning weights. This project models the array and index logic of that
file, with the learned models and the geometry libraries as inputs:

- **Mesh normalisation** (`normalize_obj`, module `Normalization`). The mesh
  is moved so that its bounding box is centred on x and z and rests on y = 0.
  It is then scaled so that its largest extent is 1. This works in place on an
  `array<Vec3>`.
- **Joint candidates** (`predict_joints`, module `JointLocalizer`):
  - the attention cut at 1e-3;
  - the reflection of the candidates across x = 0, with the weights tiled;
  - the truncated-quadratic density and the normalised-density filter;
  - the list of candidate joint pairs.
- **Root extraction** (`predict_skeleton`, module `SkeletonRoot`). The root is
  the first joint whose parent is -1.
- **Volumetric distances** (`calc_geodesic_matrix_2`, module
  `VolumetricGeodesic`):
  - visibility is pruned per bone;
  - the distance of every occluded vertex is imputed through its nearest
    visible vertex along the surface;
  - with subsampling, each output row is taken from the nearest subsample.
- **Skinning assembly** (`predict_skinning`, module `SkinningAssembler`):
  - the five nearest-bone slots of each vertex, with padding and a loss mask;
  - the scatter of slot weights into a vertices x bones matrix (the last
    write wins);
  - the cut at 0.35 of the row maximum, and the renormalisation.

All numbers are Dafny `real`s. A surface geodesic is `Inf | Fin(len)`, so that
the infinite distance between disconnected parts is a value of its own.

Where the code and its description differ, the model follows the code:

- **Imputation uses the surface-nearest visible vertex.** The value is that
  vertex's geodesic plus its own bone distance. It is not the smallest
  combined sum over all visible vertices. `NearestIsNotShortest` gives a
  three-vertex instance where the two differ.
- **Padding slots erase bone 0.** With fewer than five bones, a padding slot
  names bone 0 with a masked weight of 0 and is written last. Bone 0 therefore
  always ends with weight 0 (`PaddingErasesBoneZero`).
- **The older `calc_geodesic_matrix` (lines 259-312) is the same algorithm.**
  It differs in its mesh I/O and in fixing the decimation to 3000 faces and
  the sample count to 1500 (lines 271, 274), where `calc_geodesic_matrix_2`
  takes both as parameters. The model cites `calc_geodesic_matrix_2`, and its
  sample count is the `count` of `Subsampled`.
- **A zero density total keeps nothing.** numpy computes `0/0` as NaN, and a
  NaN comparison is false, so no candidate passes the filter.
- **An empty mesh is an error.** Python's `min` raises on an empty column,
  and the model returns `Failed(EmptyMesh)`.

Representation choices:

- A slot's features are a `Slot` record (bone, inverse distance, leaf flag)
  rather than a flat list of eight floats.
- Index lists from `np.argwhere` and boolean indexing are sequences of
  naturals (`ArgWhere`, `Select`).

One deliberate departure from the code, a mesh with zero extent, is recorded
under "## Left out" on the `Normalization.NormalizeObj` line.

## Model

| member | source | states |
|---|---|---|
| Basics.ArgWhere | rignetconnect.py:352 | the index list of a mask is strictly ascending, holds only masked positions, and holds every masked position |
| Basics.SelectIsMaskedSubsequence | rignetconnect.py:189-191 | boolean indexing keeps exactly the masked entries, in their original order, each at its source position |
| Basics.Max | rignetconnect.py:444 | the row maximum bounds every entry and is attained by one |
| Normalization.BoundingBox | rignetconnect.py:45-50 | the one-pass scan finds the columnwise minima and maxima: every vertex is inside the box and every face is touched by a vertex |
| Normalization.BoundingBoxUnique | rignetconnect.py:45-50 | the minima and maxima determine a single box, so the pivot and scale depend on the mesh alone |
| Normalization.NormalizeObj | rignetconnect.py:44-55 | an empty mesh and a zero-extent mesh are errors that leave the mesh unchanged; every other mesh is normalised: the frame is the box's x/z centre, its bottom y and `1/max extent`, and every vertex is replaced by its translated and scaled image |
| Normalization.ApplyFrame | rignetconnect.py:51-54 | the three column subtractions followed by the in-place scaling map every vertex through the frame |
| Normalization.CanonicalRoundTrip | rignetconnect.py:49-55 | `FromCanonical` (`v / scale + pivot`) undoes `ToCanonical`, and the map undoes `v / scale + pivot` |
| Normalization.NormalizeInvertible | rignetconnect.py:44-55 | denormalising the normalised mesh gives back every original vertex |
| Normalization.BoxMapped | rignetconnect.py:51-54 | the mapped box is the bounding box of the mapped mesh |
| Normalization.CanonicalPlacement | rignetconnect.py:49-53 | after the map the box rests on y = 0 and is centred on x and z |
| Normalization.CanonicalExtent | rignetconnect.py:45-48 | after the map the largest extent of the box is exactly 1 |
| Normalization.CanonicalBox | rignetconnect.py:45-54 | under `FrameOf` of the box, the mapped box rests on y = 0, is centred on x and z and has largest extent 1 |
| Normalization.NormalizedMesh | rignetconnect.py:44-55 | the normalised mesh has min y 0, is centred on x and z, has largest extent 1, and maps back exactly |
| JointLocalizer.AttentionFilterKeeps | rignetconnect.py:171-172 | `AttentionFilter` (through `AttentionMask`) keeps exactly the candidates with attention above 1e-3, in order, each still paired with its own attention |
| JointLocalizer.MirrorInvolution | rignetconnect.py:175 | mirroring across x = 0 twice is the identity |
| JointLocalizer.Reflect | rignetconnect.py:175-176 | the reflected cloud has twice the candidates: the originals first, then entry n+i is entry i with x negated and y, z unchanged |
| JointLocalizer.Tile | rignetconnect.py:177 | the tiled weights have twice the length, and weight n+i equals weight i |
| JointLocalizer.ReflectSymmetric | rignetconnect.py:175-177 | the reflected cloud is closed under mirroring: the mirror of every entry is an entry, with the same weight |
| JointLocalizer.Kernel | rignetconnect.py:186 | the truncated kernel is non-negative, at least `bw^2 - d^2`, and equal to one of the two |
| JointLocalizer.DensityLowerBound | rignetconnect.py:185-188 | in `Densities`, each candidate contributes `bw^2` to its own density, so every density and the total of a non-empty cloud are at least `bw^2` |
| JointLocalizer.DensityFilterKeeps | rignetconnect.py:188-191 | in `DensityFilter` (through `DensityMask` over `Densities`), points, weights and densities are cut by one order-preserving index list, holding exactly the candidates whose density share exceeds the threshold |
| JointLocalizer.ZeroBandwidthDropsAll | rignetconnect.py:185-191 | with bandwidth 0 the total is 0 and no candidate survives |
| JointLocalizer.PairsFrom | rignetconnect.py:199 | the pairs from row `from` on are ordered lexicographically, satisfy `from <= i < j < n`, and include every such pair |
| JointLocalizer.PairsExactly | rignetconnect.py:199 | `Pairs(n)`, the model of `combinations(range(n), 2)`, holds (i, j) exactly when i < j < n, in strictly increasing lexicographic order, with n(n-1)/2 entries |
| JointLocalizer.PairsCount | rignetconnect.py:199 | the pairs from row `from` on number (n-from)(n-from-1)/2 |
| SkeletonRoot.SelectRoot | rignetconnect.py:249-252 | a root is found exactly when some parent is -1; it is the first such joint, at that joint's position |
| SkeletonRoot.FirstRootUnique | rignetconnect.py:249-252 | the first parentless joint is unique |
| SkeletonRoot.SingleRootSelected | rignetconnect.py:248-252 | in a parent array with exactly one -1, that joint is the root |
| VolumetricGeodesic.VisibleRows | rignetconnect.py:352 | the visible rows of a bone are ascending, all visible, include every visible row, and are empty exactly when no row sees the bone |
| VolumetricGeodesic.PruneVisibility | rignetconnect.py:351-356 | every bit of the copy is the pruned bit `PrunedCell`: bones with no visible vertex are untouched, and otherwise a vertex farther than 1.3 × threshold is cleared |
| VolumetricGeodesic.PruneColumn | rignetconnect.py:352-356 | one pass rewrites the column of bone b to its pruned bits and leaves every other column as it was |
| VolumetricGeodesic.PruneOnlyClears | rignetconnect.py:351-356 | `PrunedCell` only clears bits; a surviving bit of a bone with a visible vertex is within 1.3 × threshold; a bone with none is unchanged |
| VolumetricGeodesic.PruneKeepsNear | rignetconnect.py:355-356 | a visible vertex within the threshold always survives |
| VolumetricGeodesic.ArgMinGeo | rignetconnect.py:367-368 | the chosen candidate is no farther than any candidate, and strictly nearer than every earlier one (the first minimum) |
| VolumetricGeodesic.ImputeDistances | rignetconnect.py:358-372 | every cell written by the column loop is the imputed distance of that vertex and bone |
| VolumetricGeodesic.ImputeColumn | rignetconnect.py:366-372 | the row loop writes the imputed distance into every row of column c and changes no other column |
| VolumetricGeodesic.OccludedValue | rignetconnect.py:367-372 | the value read through the matrix being written (the nearest visible vertex's entry) is the imputed distance |
| VolumetricGeodesic.VisibleKeepsDistance | rignetconnect.py:358-359 | a visible entry keeps its point-to-bone distance |
| VolumetricGeodesic.ArgMinIsNearestVisible | rignetconnect.py:367-368 | the argmin over the visible list is the lowest-numbered visible vertex with the smallest geodesic |
| VolumetricGeodesic.ArgMinAgainst | rignetconnect.py:368 | the argmin of an ascending list is no worse than any candidate and strictly better than each smaller one |
| VolumetricGeodesic.OccludedFromNearestVisible | rignetconnect.py:366-372 | in `ImputedCell`, an occluded entry of a bone with a visible vertex is its nearest visible vertex's geodesic plus that vertex's distance, or 8.0 plus its own distance when the geodesic is infinite |
| VolumetricGeodesic.NearestVisibleUnique | rignetconnect.py:368 | the nearest visible vertex, with ties broken by index, is unique |
| VolumetricGeodesic.NearestIsNotShortest | rignetconnect.py:366-372 | in one instance the imputed value (0.6) exceeds the path through another visible vertex (0.5): imputation is not a shortest path |
| VolumetricGeodesic.ImputedNonNegative | rignetconnect.py:358-372 | non-negative distances and geodesics give non-negative imputed distances |
| VolumetricGeodesic.AllVisibleKeepsDistance | rignetconnect.py:358-372 | when every vertex sees every bone the imputed matrix is the raw distance matrix |
| VolumetricGeodesic.NearestSample | rignetconnect.py:374-375 | the chosen subsample is no farther than any subsample and strictly nearer than every earlier one |
| VolumetricGeodesic.CalcGeodesicMatrix | rignetconnect.py:335-376 | without sampling, the result is the imputed matrix of the pruned visibility (`ImputedMatrix` of `PrunedMatrix`); with sampling, over the subsample points and their restricted geodesics (`SamplePoints`, `SubGeodesic`), row v is the imputed row of the first subsample nearest to vertex v |
| VolumetricGeodesic.SampledVertexKeepsOwnRow | rignetconnect.py:374-376 | a subsampled vertex is nearest to a subsample at distance 0 no later than itself, and to itself when vertex positions are distinct |
| SkinningAssembler.BuildSkinInput | rignetconnect.py:400-422 | the append loops produce, for every vertex, its slot features, slot ids and loss mask (`SlotFeatures`, `SlotIds`, `SlotMask`, whose properties `SlotsWellFormed` states) |
| SkinningAssembler.CountOnesPrefix | rignetconnect.py:412-419 | a mask that is 1 on exactly its first n slots has n ones |
| SkinningAssembler.SlotsWellFormed | rignetconnect.py:400-422 | min(5, B) slots are masked in; masked slots name distinct bones from near to far; padding slots name bone 0 with the nearest bone's features; every id is a valid bone; a masked slot carries its own bone's endpoints, `1/(geo + 1e-10)` and leaf flag; no bone left out of the slots is nearer than a masked one |
| SkinningAssembler.MaskedPrediction | rignetconnect.py:434 | a masked-out slot weighs 0 and a masked-in slot keeps the network weight |
| SkinningAssembler.ScatterPredictions | rignetconnect.py:436-440 | row v of the matrix is the scatter of v's slot weights into a zero row, in slot order |
| SkinningAssembler.LastWriteWins | rignetconnect.py:438-440 | after the scatter (`ScatterPrefix`, `ScatterRow`), a bone holds the weight of the last slot naming it, and 0 if no slot names it |
| SkinningAssembler.PaddingErasesBoneZero | rignetconnect.py:407-440 | with fewer than five bones, bone 0 always ends with weight 0 |
| SkinningAssembler.ThresholdKeepsLarge | rignetconnect.py:444 | in `ThresholdRow`, each entry becomes 0 or stays; a non-zero survivor is at least 0.35 × the row max; every entry reaching that survives, and so does the maximum |
| SkinningAssembler.NormalizeRowSum | rignetconnect.py:445 | under `NormalizeRow`, a non-negative row renormalises to a non-negative row whose sum is S/(S + 1e-10) < 1; an all-zero row stays zero |
| SkinningAssembler.ThresholdThenNormalize | rignetconnect.py:444-445 | cut then renormalised, a non-negative row stays non-negative with sum below 1; cut entries are 0 and survivors keep their proportions |

## Left out

- Blender, bmesh and the basis-change matrices (lines 65-91, 506-515): host API calls.
- Open3D and trimesh mesh construction, normal computation, quadric decimation and temp-file export (lines 93-104, 325-343): foreign libraries and file I/O.
- The binvox subprocess and its file read (lines 127-148): an external process and file I/O. The error message at line 142 is never filled in with the path.
- All network evaluations, softmax and sigmoid, device moves and checkpoint loading: their outputs (attention, displacements, skinning weights) are inputs.
- `meanshift_cluster`, `nms_meanshift`, `flip`, `primMST_symmetry`, `increase_cost_for_outside_bone`, `inside_check`, `loadSkel_recur`, `pts2line`, `calc_pts2bone_visible_mat`, `post_filter`, `get_bones`, `assemble_skel_skin`, `sample_on_bone`, `getInitId`, `calc_surface_geodesic`, `get_tpl_edges`, `get_geo_edges`: their code is not part of this model, so their results (parent array, visibility bits, point-to-bone distances, surface geodesics, smoothed weights) are inputs.
- `np.percentile` (line 355): the per-bone threshold is an input `thr`, read only for bones with a visible vertex.
- `np.random.choice` (line 335): the subsample ids are an input of distinct vertex ids of size min(V, count).
- `np.argsort` tie order (line 402): the argsort is an input constrained to be a sorting permutation.
- The pair-attribute loop (lines 199-207): it depends on `inside_check` and `sample_on_bone`. Its `outside_proportion` in fact measures the inside samples.
- The connection-cost matrix and its `-log` (lines 240-245): it feeds only the spanning tree, which is an input.
- Floating point: numbers are unbounded reals. The model has no rounding, no NaN and no infinity, except as the `Geo.Inf` value and the explicit error and empty-total cases above. `1e-10` is kept as an exact constant.
- `predict_rig` and `clear` (lines 450-520): they sequence the stages, load the checkpoints, clear the mesh's vertex groups and build the armature through `ArmatureGenerator` with a basis-change matrix (lines 506-515); all of these are host or library calls. The final `pred_rig.normalize(scale, -pivot)` (line 504) is assumed to apply `v / scale + pivot`, the map `FromCanonical` whose round trip is proved; `Info.normalize` is not part of this model.
- `__init__.py`: add-on registration only.
- Normalization.NormalizeObj: a mesh whose extents are all zero returns `Failed(DegenerateMesh)` and leaves the mesh unchanged. This departs from the code on purpose: there `1.0 / max(dims)` is an `np.float64` division by zero, which gives `inf` with a warning, and lines 51-54 then write NaN coordinates without raising. Reals have no `inf` or NaN to model that result.
- VolumetricGeodesic.CalcGeodesicMatrix: requires a positive subsample count, because `np.argmin` over zero subsamples raises.
- SkinningAssembler.BuildSkinInput: requires at least one bone (through `SkinInputs`), because the source's `bone_id_near_to_far[0]` (line 408) raises on an empty bone list.
- SkinningAssembler.SlotsWellFormed: requires at least one bone, because the source's `bone_id_near_to_far[0]` raises on an empty bone list.
- SkinningAssembler.NormalizeRowSum: proved for non-negative rows only, which is what the softmax produces. `NormalizeRow` requires a non-zero denominator, which holds for such rows.
- VolumetricGeodesic.SampledVertexKeepsOwnRow: "distinct positions" is stated as a positive squared distance between different vertices.
- JointLocalizer.AttentionFilter: the model keeps a flat list of candidates throughout. With exactly one candidate left after line 170, `attn_pred_np.squeeze()` is 0-d, so the boolean index of lines 171-172 adds an axis. Line 176 then stacks to shape (2, 1, 3), and line 177's `np.tile(..., (2, 1))` gives shape (1, 2, 1), no longer aligned with the points along axis 0. That rank change, and what lines 182-191 then do with those shapes, is not modelled; for one candidate the model returns two aligned candidates.
- JointLocalizer.DensityLowerBound: the bound is stated with `Square(bw)`, the same term the kernel uses, rather than a product written out.
