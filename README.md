# MeshRefiner

A model of `mu::MeshRefiner`, the mesh refiner of USDForUnity's mesh utilities,
with proofs about it. The refiner turns a polygon mesh into buffers that Unity
can draw. Its input is per-face corner counts, per-corner point indices and
points, plus optional normals, uv, colors, skin weights and generated tangents.
Its outputs are:

- vertices that carry every attribute;
- corner indices local to splits, each of at most `split_unit` vertices when `split_unit` > 0 and no face has more corners than that (a face with more corners gets a split of its own, and with `split_unit` <= 0 the whole mesh is one split);
- fan-triangulated indices;
- triangles regrouped by material into submeshes.

The model covers each step of the refiner:

- `prepare` takes a new mesh and works out its face offsets.
- `buildConnection` builds the reverse index from points to the corners that use them.
- `findOrAddVertex` (all five variants) dedups corner vertices through a cache over that index.
- `doRefine` walks the faces, opening a new split when the current one would grow past `split_unit`, then triangulates each split.
- `refineWithOptimization` picks the dedup variant from the buffer sizes.
- `refineDumb` flattens, splits and triangulates without dedup.
- `refine` dispatches between the two.
- `swapNewData` hands the outputs to the caller.
- `genSubmesh` groups each split's triangles by material.

The vector types (float2, float3, float4, Weights4) are abstract type
parameters. `near_equal` is given to the refiner as three comparison functions,
and nothing is assumed about them.

Modules:

- `Kernels`: reference definitions of the mu:: kernels the refiner calls (CountIndices, Triangulate, TriangulateWithIndices, CopyWithIndices) and facts about them.
- `Splits`: the Split record, the tiling of faces by splits, per-split triangulation, and the grouping mu::Split makes.
- `SplitRule`: the rule doRefine's face loop follows to open and close splits.
- `Connection`: the reverse index as a compressed sparse row layout, and what it promises.
- `Cache`: the vertex cache old2new over that index.
- `Layouts`: refineWithOptimization's choice of dedup variant.
- `Vertices`: output vertices as values and one dedup step.
- `Submeshes` and `SubmeshPass`: genSubmesh's tally, cursors, copy and records.
- `Refiner`: the class `MeshRefiner`, whose methods update its buffers as the source does.

## Model

| member | source | states |
|---|---|---|
| Refiner.MeshRefiner.PrepareAsWritten | Plugin/MeshUtils/MeshRefiner.cpp:8-60 | Takes the new mesh and clears its attributes, the reverse index, the generated buffers, the cache and every output except new_tangents, which keeps its old value. Without counts, every face is a triangle at offset 3f; the trailing corners still count in num_indices_tri; the layout is Counted exactly when the corner count is a multiple of 3. With counts, offsets and num_indices_tri are their prefix sums and fan total. |
| Refiner.MeshRefiner.Prepare | Plugin/MeshUtils/MeshRefiner.cpp:8-60 | The same as PrepareAsWritten, except that new_tangents is cleared too, so nothing derived from an earlier mesh is left (Cleared). |
| Refiner.MeshRefiner.CountSoup | Plugin/MeshUtils/MeshRefiner.cpp:45-53 | A mesh without counts gets counts of 3 for each of the first \|indices\|/3 corner triples, at offsets 3f. num_indices_tri is \|indices\|. The counts add up to \|indices\| minus its remainder mod 3. |
| Refiner.MeshRefiner.CountFaces | Plugin/MeshUtils/MeshRefiner.cpp:55-57 | With counts given, the offsets are the prefix sums of the counts and num_indices_tri is their fan total (Counted). |
| Refiner.MeshRefiner.CountLayout | Plugin/MeshUtils/MeshRefiner.cpp:45-57 | Chooses the soup layout exactly when counts are empty and the counted layout otherwise, with each branch's result. |
| Refiner.MeshRefiner.TakeMesh | Plugin/MeshUtils/MeshRefiner.cpp:11-18 | The new indices and points replace the old ones; normals, uv, colors and weights are empty. |
| Kernels.CountIndices | Plugin/MeshUtils/MeshRefiner.cpp:56 | Reference definition of mu::CountIndices: one offset per face equal to the sum of the earlier counts, the total corner count, and the fan-triangulated total. |
| Kernels.TriangleSoup | Plugin/MeshUtils/MeshRefiner.cpp:45-53 | n faces of 3 corners have 3n corners and 3n triangle indices, and the prefix sum of f of them is 3f. |
| Refiner.CountCorners | Plugin/MeshUtils/MeshRefiner.cpp:541-552 | buildConnection's first pass leaves v2f_counts equal to the Histogram of the indices: each point's number of corners. |
| Refiner.CountFace | Plugin/MeshUtils/MeshRefiner.cpp:546-550 | Counting one face's corners extends the histogram of the corners before it by that face. |
| Refiner.SlotOffsets | Plugin/MeshUtils/MeshRefiner.cpp:557-563 | v2f_offsets[v] is the sum of the counts of the points before v. |
| Refiner.PlaceCorners | Plugin/MeshUtils/MeshRefiner.cpp:564-575 | Placing every corner gives a reverse index (IsCsr): each point's slot range holds exactly its corners, in corner order, with their faces. |
| Refiner.PlaceFace | Plugin/MeshUtils/MeshRefiner.cpp:566-573 | Placing one face's corners extends the placed prefix by that face. |
| Refiner.MeshRefiner.BuildConnection | Plugin/MeshUtils/MeshRefiner.cpp:526-575 | When v2f_counts already has one entry per point, nothing changes. Otherwise, and always from an empty index, the reverse index of the current mesh is built (Connected). |
| Connection.HistogramCounts | Plugin/MeshUtils/MeshRefiner.cpp:541-552 | The histogram entry of point v is the number of corners that name v. |
| Connection.HistogramTotal | Plugin/MeshUtils/MeshRefiner.cpp:541-563 | The per-point counts are non-negative and add up to the number of corners, so the slot ranges fill shared_faces and shared_indices exactly. |
| Connection.OccurrencesSorted | Plugin/MeshUtils/MeshRefiner.cpp:564-575 | A point's corners are listed in increasing corner order. |
| Connection.CsrExactlyOnce | Plugin/MeshUtils/MeshRefiner.cpp:564-575 | In a built reverse index, every corner sits in exactly one slot. |
| Connection.CsrFaces | Plugin/MeshUtils/MeshRefiner.cpp:564-575 | Every slot lies in the range of the point its corner names, and its face is the face that holds that corner. |
| Cache.CsrSlotIndex | Plugin/MeshUtils/MeshRefiner.cpp:577-583 | A built reverse index lets the dedup search read the cache entry of every slot of a point. |
| Refiner.MeshRefiner.FindOrAddVertex | Plugin/MeshUtils/MeshRefiner.cpp:577-682 | The search stops at slot k of the point. Every earlier slot holds an output vertex that does not match. If the slot holds a matching vertex, it is returned and nothing changes. If the slot is empty, the vertex (with the point's skin weights when the mesh has them) is pushed as the new last vertex and recorded in the slot. If no slot is left, 0 is returned and nothing changes. |
| Refiner.MeshRefiner.Dedup | Plugin/MeshUtils/MeshRefiner.cpp:577-682 | Within doRefine, the search always ends at a match or an empty slot: the corner gets an output vertex of the current split that matches it or was made from it, and the cache stays consistent with the output buffers. |
| Vertices.DedupKeeps | Plugin/MeshUtils/MeshRefiner.cpp:577-599 | One dedup step keeps the output buffers shaped for the layout, keeps every earlier vertex, and makes the new corner's vertex stand for the corner while every earlier corner's still does. |
| Vertices.PushShaped | Plugin/MeshUtils/MeshRefiner.cpp:588-595 | Pushing a vertex with the attributes the variant handles keeps every buffer one entry per vertex, and the new vertex holds them. |
| Refiner.MeshRefiner.EmitCorner | Plugin/MeshUtils/MeshRefiner.cpp:337-342 | A corner's index is its output vertex relative to the split, and that vertex stands for the corner. |
| Refiner.MeshRefiner.EmitFace | Plugin/MeshUtils/MeshRefiner.cpp:337-342 | A face appends one local index per corner, each below the split's vertex count, and adds at most one vertex per corner. |
| Refiner.MeshRefiner.MakeRoom | Plugin/MeshUtils/MeshRefiner.cpp:330-335 | Before face fi, if split_unit > 0 and the face's corners would take the open split past split_unit, the open split is appended with its face, vertex, index and triangle counts. The cache is then cleared, and the open split restarts at fi with nothing in it. Otherwise nothing changes. The check also runs before the first face, so a first face with more corners than split_unit closes an empty first split. Afterwards the face is admitted, and the split rule still holds. |
| Refiner.MeshRefiner.CloseSplit | Plugin/MeshUtils/MeshRefiner.cpp:330-334 | When face fi would overfill the open split, the open split is appended with its face, vertex, index and triangle counts. The next split opens at face fi with the next output vertex and index, every cache entry is unassigned, and the split rule still holds. |
| Refiner.MeshRefiner.RefineFace | Plugin/MeshUtils/MeshRefiner.cpp:326-345 | One face iteration keeps the split rule and the corner correspondence for one more face. |
| Refiner.MeshRefiner.AdmitFace | Plugin/MeshUtils/MeshRefiner.cpp:337-344 | A face the open split has room for has its corners deduplicated into that split and its triangles counted; the split rule and the corner correspondence then hold for one more face. |
| Refiner.MeshRefiner.RefineFrom | Plugin/MeshUtils/MeshRefiner.cpp:326-345 | The face loop from any face on ends with all faces visited under the split rule. |
| Refiner.MeshRefiner.RefineFaces | Plugin/MeshUtils/MeshRefiner.cpp:304-346 | From an empty cache and empty outputs, the face loop and the last add_new_split produce the Outcome. The splits tile the faces with the mesh's totals. Indices are local to their split, and each one, globalized, names an output vertex standing for its corner's vertex. Only the attributes the variant reads are filled. Every split but the last was closed for want of room, and when every face fits, no split exceeds split_unit. The splits are greedy (GreedySplits): one split when split_unit is off; a split over split_unit holds a single face; only the first split can be empty, and it is empty exactly when there is no face or the first face alone exceeds split_unit. |
| SplitRule.RefiningDone | Plugin/MeshUtils/MeshRefiner.cpp:312-324 | The final add_new_split closes the split rule over all faces, greedy shape included. |
| SplitRule.CloseGreedy | Plugin/MeshUtils/MeshRefiner.cpp:330-334 | Closing the open split before a face that overflows it keeps the splits greedy, and the new open split starts empty at that face. |
| SplitRule.DoneGreedy | Plugin/MeshUtils/MeshRefiner.cpp:346 | The last add_new_split leaves the finished splits greedy: one split when split_unit is off, a split over split_unit holds a single face, and only the first split can be empty, exactly when there is no face or the first face alone exceeds split_unit. |
| Splits.TriangulatedLocal | Plugin/MeshUtils/MeshRefiner.cpp:348-367 | Triangulating split by split yields per-split blocks of triangle indices local to their split, of the splits' triangulated total length. |
| Splits.TriangulatedTotal | Plugin/MeshUtils/MeshRefiner.cpp:349-352 | nindices is the sum of the splits' triangulated counts. |
| Splits.TriangulatePass | Plugin/MeshUtils/MeshRefiner.cpp:349-367 | doRefine's triangulation leaves new_indices_triangulated equal to the per-split fan triangulation of the split-local indices (TriangulateSplits), of the splits' total length. |
| Refiner.MeshRefiner.RefineValues | Plugin/MeshUtils/MeshRefiner.cpp:304-367 | The face loop's results satisfy Outcome, and the triangulated indices are TriangulateSplits when triangulate is set and unchanged otherwise. |
| Refiner.MeshRefiner.Commit | Plugin/MeshUtils/MeshRefiner.cpp:304-367 | The cache, the output buffers, the local indices, the splits and the triangulated indices are stored in the fields. |
| Refiner.MeshRefiner.Stored | Plugin/MeshUtils/MeshRefiner.cpp:304-367 | Once stored, the fields satisfy Refinement, and Triangulated when triangulate is set. |
| Refiner.MeshRefiner.Store | Plugin/MeshUtils/MeshRefiner.cpp:304-367 | Storing the results leaves the refiner Refined for the layout. |
| Refiner.MeshRefiner.RefineConnected | Plugin/MeshUtils/MeshRefiner.cpp:297-370 | With the reverse index built, doRefine leaves the refiner Refined for the layout; without triangulate, new_indices_triangulated is not touched. |
| Refiner.MeshRefiner.DoRefine | Plugin/MeshUtils/MeshRefiner.cpp:293-371 | Builds the reverse index if needed, then refines. Afterwards old2new has one entry per corner and Outcome holds of splits, new_indices and the output buffers. With triangulate, new_indices_triangulated is the per-split triangulation of the split-local indices; without it, that buffer is unchanged. The splits follow the greedy split rule of RefineFaces. |
| Layouts.SelectLayoutFollowsRule | Plugin/MeshUtils/MeshRefiner.cpp:373-499 | The variant refineWithOptimization dispatches to, read off its nested ifs, equals an independent rule. Normals and uv are each per corner or per point. Tangents are used exactly when normals, uv and tangents_tmp are present. Colors are used only alongside tangents. No variant is chosen when a present buffer matches neither size. |
| Layouts.SelectedLayoutReadable | Plugin/MeshUtils/MeshRefiner.cpp:373-499 | The chosen variant reads every attribute from a buffer of the size its per-point or per-corner reading needs, and uses normals whenever they are given. |
| Refiner.MeshRefiner.RefineWith | Plugin/MeshUtils/MeshRefiner.cpp:373-499 | With a variant chosen, doRefine runs for it; with none, no field changes. |
| Refiner.MeshRefiner.RefineWithOptimization | Plugin/MeshUtils/MeshRefiner.cpp:373-499 | Always returns true. The mesh is left as it is. The selected variant is the one SelectLayout picks from the current buffer sizes. When there is one, the refiner is Refined for it; when there is none, no field changes. |
| Refiner.MeshRefiner.Flatten | Plugin/MeshUtils/MeshRefiner.cpp:224-248 | points and new_points become one point per corner. normals, uv and weights are gathered into their new_ buffers and replaced by them, unless they are absent or already per corner. colors are gathered into new_colors, but the colors field keeps the per-point buffer. |
| Refiner.MeshRefiner.TriangulateDumb | Plugin/MeshUtils/MeshRefiner.cpp:253-287 | More points than split_unit: faces are grouped into splits that tile them, and each group is triangulated locally. Otherwise, with triangulate: one split covering the whole mesh, triangulated by position after flattening and through the indices otherwise. Otherwise: no split, and the triangulated buffer is resized to num_indices_tri. |
| Refiner.TriangulateWhole | Plugin/MeshUtils/MeshRefiner.cpp:274-280 | The whole-mesh triangulation draws the same triangles from the flattened points as TriangulateWithIndices draws from the original ones. |
| Refiner.DumbSplits | Plugin/MeshUtils/MeshRefiner.cpp:256-272 | The groups tile the faces, each has as many vertices as indices and no submeshes, and none exceeds split_unit when every face fits. The triangulated buffer is the local triangulation of each group, indices local to their group. |
| Refiner.MeshRefiner.RefineDumb | Plugin/MeshUtils/MeshRefiner.cpp:214-289 | Returns true. It flattens exactly when there are more points than split_unit, or normals or uv are per corner, with Flatten's results, and leaves every buffer as it is otherwise. Splits and triangulated indices are as TriangulateDumb states. |
| Refiner.MeshRefiner.Refine | Plugin/MeshUtils/MeshRefiner.cpp:147-150 | With optimize: refineWithOptimization, which leaves the mesh as it is and refines with the selected variant, if any. Without it: refineDumb, which draws the original triangles when the whole mesh is triangulated as one split. Either way it reports success. |
| Kernels.FlattenKeepsTriangles | Plugin/MeshUtils/MeshRefiner.cpp:225-228 | Triangulating the flattened mesh by corner position draws, triangle corner by triangle corner, the same points as triangulating the original mesh through its indices. |
| Kernels.TriangulateGather | Plugin/MeshUtils/MeshRefiner.cpp:276-279 | Triangulation commutes with gathering through the indices. |
| Kernels.TriangulateWithIndices | Plugin/MeshUtils/MeshRefiner.cpp:279 | Reference definition of mu::TriangulateWithIndices: a fan per face, 3(c-2) indices per face of c corners, each one of the face's indices. |
| Kernels.Triangulate | Plugin/MeshUtils/MeshRefiner.cpp:261 | Reference definition of mu::Triangulate: the same fans over corner positions, each below the corner count. |
| Kernels.CopyWithIndices | Plugin/MeshUtils/MeshRefiner.cpp:226 | Reference definition of mu::CopyWithIndices: entry k is the source entry at index k. |
| Kernels.Resize | Plugin/MeshUtils/MeshRefiner.cpp:255 | RawVector::resize keeps the first entries and fills new ones. |
| Splits.SplitFaces | Plugin/MeshUtils/MeshRefiner.cpp:260-272 | The grouping mu::Split makes: consecutive groups that tile the faces, each with as many vertices as indices, none over maxVertices when every face fits. |
| Splits.TriangulateLocalRanges | Plugin/MeshUtils/MeshRefiner.cpp:260-272 | Triangulating each group by position gives indices local to the group, of the groups' triangulated total length. |
| Splits.TriangulateGroups | Plugin/MeshUtils/MeshRefiner.cpp:257-263 | Each group's local triangulation is written at its running offset; the buffer past the groups' total is untouched. |
| Refiner.Exchange | Plugin/MeshUtils/MeshRefiner.cpp:510-523 | The caller's buffer is swapped with the first non-empty source, or kept when every source is empty. The other source is left alone. |
| Refiner.MeshRefiner.SwapNewData | Plugin/MeshUtils/MeshRefiner.cpp:501-524 | For each destination: the exchange with new_points, new_normals then normals_tmp, new_tangents then tangents_tmp, new_uv, new_colors, new_weights4, and new_indices_submeshes then new_indices_triangulated. The field swapped from is left holding the caller's buffer. |
| Submeshes.TallyBuckets | Plugin/MeshUtils/MeshRefiner.cpp:176-184 | One bucket per material id from -1 up to the largest in the split, each with material id m-1. Each counts the triangle indices of the split's faces of that material. |
| Submeshes.TallyBucketsAsWritten | Plugin/MeshUtils/MeshRefiner.cpp:176-184 | The tally as written: a split's buckets count the triangle indices of the mesh's first faces, not of the split's own. |
| Submeshes.AsWrittenTallyMiscounts | Plugin/MeshUtils/MeshRefiner.cpp:183 | For counts [3, 4] and materials [0, 0], the second split's bucket gets 3 triangle indices as written; its face has 6. |
| Submeshes.AssignCursors | Plugin/MeshUtils/MeshRefiner.cpp:186-189 | Each bucket's write cursor is the write position plus the sizes of the buckets before it; the position advances by their total. |
| Submeshes.FillBuckets | Plugin/MeshUtils/MeshRefiner.cpp:191-199 | Copying a split's triangles writes the split's block regrouped by material (Bucketed) at the split's base and reads exactly the block. |
| Submeshes.BucketedPermutation | Plugin/MeshUtils/MeshRefiner.cpp:191-199 | The regrouped block is a permutation of the split's triangle indices. |
| Submeshes.BucketSizesTotal | Plugin/MeshUtils/MeshRefiner.cpp:186-189 | The bucket sizes add up to the split's triangle index count, so the cursors stay in the split's block. |
| Submeshes.NonEmptyMembers | Plugin/MeshUtils/MeshRefiner.cpp:201-206 | The submeshes kept are exactly the buckets with triangles. |
| SubmeshPass.KeepNonEmpty | Plugin/MeshUtils/MeshRefiner.cpp:201-206 | The non-empty buckets are appended to the submeshes, and the split's submesh count grows by their number. |
| SubmeshPass.SubmeshAll | Plugin/MeshUtils/MeshRefiner.cpp:167-210 | The per-split pass writes each split's triangles regrouped by material, leaves the rest of the buffer, records the non-empty submeshes in split order, and sets each split's submesh count. |
| SubmeshPass.SubmeshIndicesPermutation | Plugin/MeshUtils/MeshRefiner.cpp:167-210 | The submesh indices are a permutation of the triangulated indices they were read from. |
| SubmeshPass.SplitRecordsAscending | Plugin/MeshUtils/MeshRefiner.cpp:201-206 | Within a split, submeshes come in strictly ascending material id, each with triangles and an id of at least -1. |
| SubmeshPass.SubmeshCountsAddUp | Plugin/MeshUtils/MeshRefiner.cpp:201-206 | The splits' submesh counts add up to the number of submesh records. |
| Refiner.MeshRefiner.GenSubmesh | Plugin/MeshUtils/MeshRefiner.cpp:155-212 | Asks nothing of the mesh when the material ids do not match the faces. Succeeds exactly when there is one material id per face. On failure, submeshes is empty and nothing else changes. On success, new_indices_submeshes is resized to the triangulated buffer. Its first part holds each split's triangles regrouped by material and the rest is the resize. The submesh records and the splits' submesh counts are as SubmeshAll states. |
| Refiner.StaleTangentsMisalign | Plugin/MeshUtils/MeshRefiner.cpp:591 | A tangent buffer longer than the points stays longer after every push, so the output buffers are shaped for no variant. After one push from empty points, the first stale tangent, not the pushed one, sits at vertex 0. |

## Left out

- genNormals (both overloads, Plugin/MeshUtils/MeshRefiner.cpp:62-139) and genTangents (:141-145) are not modelled: they compute floating-point normals and tangents, and the model treats vector values as opaque. normals_tmp and tangents_tmp are modelled as buffers filled by a caller.
- npoints and face_normals (:14, :29) serve only genNormals and are left out with it.
- Plugin/usdi/usdiSchema.cpp is a caller and is not part of this model.
- The bodies of mu::CountIndices, mu::Triangulate, mu::TriangulateWithIndices, mu::CopyWithIndices and mu::Split are not part of this model. Kernels gives reference definitions of the first four: fans from a face's first corner, flipped when swap_faces is set. Splits.SplitFaces' grouping is an assumed reading of mu::Split: consecutive faces, a new group when the next face would pass maxVertices, and so an empty first group when the first face alone passes it. The code of mu::Split is not available, so this grouping is an assumption.
- near_equal is a parameter: three comparison functions given to the constructor, with no property assumed. Floating-point tolerance is not modelled.
- Integer width: counts, indices and sizes are unbounded integers. The `(int)` casts of sizes and any overflow of int are not modelled.
- The reserve calls (:298-302) do not change contents and are left out.
- RawVector::resize leaves new entries uninitialised. The model fills them with 0 (Kernels.Resize with fill 0 at :255 and :163), and no property depends on that value.
- The `swap_faces` branch of doRefine without triangulate (:368-370) is empty in the source and is modelled as no change.
- DoRefine: requires new_indices empty. The source appends to new_indices (:341) and starts offset_indices at 0, so from a state with earlier entries the first split's num_indices would count them too. prepare clears new_indices, so only a doRefine without a prepare before it reaches that state; RefineWith, RefineWithOptimization and Refine carry the same requires.
- DoRefine: requires every output buffer empty, new_tangents included. prepare leaves new_tangents as it was (see Findings), so doRefine after a swapNewData that handed new_tangents to the caller is covered only through Prepare, the corrected prepare.
- BuildConnection: requires the counts to add up to the corners (WellFormed). A triangle soup whose corner count is not a multiple of 3 has 1 or 2 trailing corners in no face; buildConnection leaves their shared_* slots unwritten, and the model does not cover that mesh.
- DoRefine: states no bound on the number of output vertices. Outcome ties each corner to an output vertex that is near-equal to the corner's own vertex, and that would also hold of a refiner that pushed a fresh vertex per corner. The near-equality functions are parameters with no property assumed; if they were reflexive, then with split_unit off and no per-corner attribute the source would give each point at most one output vertex. That bound is not proved.
- DoRefine: requires WellFormed and Counted, so it also excludes the triangle soup with 1 or 2 trailing corners. In the source, those corners get no output vertex.
- DoRefine: requires, when triangulate is set, every face to have at least 3 corners (Polygons), and so do RefineWith, RefineWithOptimization and Refine. The source counts (count - 2) * 3 triangulated indices per face (:344). A 2-corner face counts 0 there and is handled without fault, but the model does not cover it. A face of 0 or 1 corners gives a negative count, which the source does not guard.
- RefineDumb: requires every face to have at least 3 corners (Polygons) when triangulate is set or when the flattened mesh is split. Under that requires, a 2-corner face, which the source triangulates to 0 indices, is not covered, and a face of 0 or 1 corners would give the split and triangulation kernels a negative count.
- RefineDumb: requires WellFormed and Counted, which exclude the same soup, and requires num_indices_tri >= 0 (an int total in the source).
- RefineDumb: requires that normals, uv, colors and weights, when flattened, can be read through every index (Gatherable). The source reads out of bounds otherwise.
- RefineWithOptimization: requires that the selected variant can read tangents_tmp and weights4 through the corners it visits (LayoutReadable). SelectedLayoutReadable proves this for normals, uv and colors from the sizes alone. For tangents_tmp and skin weights, whose sizes the dispatch does not check, the source reads out of bounds.
- Refine: states only the headline of each branch. The full contracts are RefineWithOptimization's and RefineDumb's, and Refine requires what each branch requires.
- GenSubmesh: requires every material id to be at least -1 (Materials). An id below -1 indexes sm with a negative position at :183 and :197, which is undefined behaviour.
- SubmeshAll: requires the same bound on material ids, for the same reason.
- GenSubmesh: requires, when there is one material id per face, that the splits tile the faces (Tiles) with polygon counts, as refineDumb and doRefine leave them, and that new_indices_triangulated holds at least the splits' triangulated index total, which the source reads at :197 without a bound check. It is modelled with the corrected tally; the as-written tally is the Findings row.
- `colors = colors` (:242) is modelled as written: the colors field keeps its per-point buffer while new_colors is gathered per corner.

## Findings

| source | as written | input that shows it | evidently intended | confidence | as-written member | corrected member |
|---|---|---|---|---|---|---|
| Plugin/MeshUtils/MeshRefiner.cpp:183 | the tally adds `(counts[fi] - 2) * 3`, the corner count of the mesh's face fi, not of the split's face fi | counts [3, 4], materialIDs [0, 0], split into two splits of one face each: the second split's bucket gets 3 indices while its face has 6, so the copy at :194-198 writes past the bucket | `counts[offset_faces + fi]`, as the copy at :194 reads | not executed | Submeshes.TallyBucketsAsWritten, Submeshes.AsWrittenTallyMiscounts | Submeshes.TallyBuckets, SubmeshPass.SubmeshAll |
| Plugin/MeshUtils/MeshRefiner.cpp:8-60 | prepare clears every output buffer except new_tangents, which swapNewData (:515) hands to the caller and refills with the caller's old buffer | after a refine with tangents and swapNewData, new_tangents holds the caller's one-entry buffer [t0]; prepare keeps it, and the next doRefine pushes the first tangent at index 1 (:591), so vertex 0 gets t0 | clear new_tangents with the other outputs | not executed | Refiner.MeshRefiner.PrepareAsWritten, Refiner.StaleTangentsMisalign | Refiner.MeshRefiner.Prepare |
