# Corner-table triangle mesh, modelled and verified in Dafny

This project models the topology core of the `Mesh<T,U>` corner table in
`geomUtils/inc/mesh.h` and its out-of-line part `geomUtils/src/mesh.cpp`. It
also models the small sequential helpers around the mesh: the array and
collection helpers, the bounded-key sets, the curve index arithmetic, rectangle
containment, colour bytes and the string helpers.

The mesh keeps flat integer tables:
- the vertex table `m_VTable` maps a corner to its vertex;
- the opposite table `m_OTable` maps a corner to the corner facing it across
  its edge, with -1 for a boundary;
- the geometry table `m_GTable` holds one point per vertex;
- the tombstone flags `m_fVRemoved` mark removed vertices;
- the counters `m_nv`, `m_nt`, `m_nc` count vertices, triangles and corners.

The model has two layers:
- **Values.** `MeshTopology.MeshState<Pt>` is a value holding the same tables.
  Each edit of the source is one function on it (`RemoveTriangle`,
  `CollapseEdge`, `ExpandVertex`, `ReclaimMemory`, ...). The lemmas about those
  functions carry the properties.
- **The object.** `Meshes.Mesh<Pt>` is a class whose fields are those tables.
  Its methods change them in place, with the same loops as the source, and
  each method's postcondition ties the new state to the value-level function.

Modelling choices:
- The point type is a type parameter `Pt`. The topology code only copies points.
- Corner, triangle and vertex handles are `int`, with -1 as the sentinel.
- C++ division and remainder truncate toward zero. The corner operators write
  this out (`Quot3`, `Rem3`), so `n(-1)` and `p(-1)` have the values the
  compiled code gives them.
- The observers registered for triangle and vertex index changes are modelled
  as two ordered logs of `(old, new)` moves (`tMoves`, `vMoves`).
  `LRTriangleIndexChangeHandler` is a fold over the triangle log (`MeshEdits.Replay`).
- Loops that swing around a vertex get `MAX_VALENCE` (100) steps of fuel.

The central invariant is that the opposite table is an involution on the live
corners: `o(o(c)) == c` wherever `o(c) != -1` (`MeshTopology.Opposed`). The
lemmas prove that `computeO`, `zipAdjacent`, `removeTriangle`, `collapseEdge`,
`collapseTriangle`, `expandVertex`, `shiftTriangleCorners` and `reclaimMemory`
preserve it, under the conditions the source relies on.

## Model

| member | source | states |
|---|---|---|
| BoundedSets.BoundedSet.constructor | utils/inc/helpers.h:141-145 | an empty set whose flags cover exactly the keys below `maxSize`, all cleared (also the constructor of utils/inc/boundedCardinalitySet.h:32-35) |
| BoundedSets.BoundedSet.MaxValue | utils/inc/helpers.h:164 | maxValue() is the number of keys the flags cover (also utils/inc/boundedCardinalitySet.h:49) |
| BoundedSets.BoundedSet.Insert | utils/inc/helpers.h:147-157 | for a key below the maximum, the element is appended and true answered exactly when the key was not inserted before; otherwise nothing changes; afterwards the key's flag is set and the set stays consistent (also utils/inc/boundedCardinalitySet.h:37-45) |
| BoundedSets.BoundedSet.IncreaseSize | utils/inc/helpers.h:166-170 | the maximum grows by the increment, that many cleared flags are appended, the elements are kept (also utils/inc/boundedCardinalitySet.h:51-54) |
| BoundedSets.BoundedSet.Clear | utils/inc/helpers.h:178-182 | no element and no flag is left, the maximum is unchanged |
| BoundedSets.BoundedSet.Reset | utils/inc/helpers.h:172-176 | the maximum becomes `newSize` and the set is empty with every flag cleared |
| BoundedSets.ContainerCountsKeys | utils/inc/helpers.h:147-157 | in a consistent set the number of stored elements equals the number of set flags |
| Helpers.IndexOf | geomUtils/inc/mesh.h:58 | std::find: the first position holding the value, or the size when it is absent; getIndexForColor searches the map with it, and std::getline stops at the delimiter it finds (utils/src/strHelpers.cpp:29) |
| ColorMaps.NewColorIndexOutOfRange | geomUtils/inc/mesh.h:56-61 | for a colour not yet in the map, getIndexForColor as written answers the new size of the map, one past its last index |
| ColorMaps.IndexForColor | geomUtils/inc/mesh.h:56-61 | the corrected answer always indexes the asked colour; an existing colour gives its first position and leaves the map, a new one is appended and gets the last index |
| ColorMaps.IndexForColorStable | geomUtils/inc/mesh.h:56-61 | asking again for the same colour answers the same index and leaves the map as it is |
| ColorMaps.ColorMap.constructor | geomUtils/inc/mesh.h:49-52 | the map takes over a list of exactly c_numTriangleMarkers (10) colours |
| ColorMaps.ColorMap.At | geomUtils/inc/mesh.h:54 | operator[] answers a colour of the map |
| ColorMaps.ColorMap.AddColor | geomUtils/inc/mesh.h:61 | the colour is appended and its index (corrected, see Findings) answered |
| ColorMaps.ColorMap.GetIndexForColor | geomUtils/inc/mesh.h:56-60 | leaves the map and answers the index IndexForColor gives; the answer indexes the asked colour |
| Rects.ContainsHalfOpen | geomUtils/inc/rect.h:19-24 | contains(x, y) holds exactly for x in [x0, x0 + width) and y in [y0, y0 + height); the high edges are outside |
| Rects.EmptyContainsNothing | geomUtils/inc/rect.h:19-24 | a rectangle without width or height contains no point |
| Rects.OriginContained | geomUtils/inc/rect.h:19-24 | the origin corner is contained exactly when width and height are positive |
| Curves.Next | nonRefactored/geomComponents/src/curve.cpp:68-76 | next(i) stays on the curve: the following point, wrapping to 0 on a closed curve and stopping at the last point on an open one |
| Curves.Prev | nonRefactored/geomComponents/src/curve.cpp:78-86 | prev(i) stays on the curve: the preceding point, wrapping to the last on a closed curve and stopping at 0 on an open one |
| Curves.ClosedNextPrev | nonRefactored/geomComponents/src/curve.cpp:68-86 | on a closed curve next and prev are inverse to each other |
| Curves.OpenNextPrev | nonRefactored/geomComponents/src/curve.cpp:68-86 | on an open curve they are inverse away from the ends, and the last (first) point is the only fixed point of next (prev) |
| Curves.Curve.constructor | nonRefactored/geomComponents/src/curve.cpp:6-8 | a new curve has no points and the given closedness |
| Curves.Curve.Nv | nonRefactored/geomComponents/src/curve.cpp:27-30 | nv() is the number of points |
| Curves.Curve.AddPoint | nonRefactored/geomComponents/src/curve.cpp:32-35 | the point is appended and the count grows by one |
| Curves.Curve.SetPoint | nonRefactored/geomComponents/src/curve.cpp:37-41 | only the slot at `index` changes |
| Curves.Curve.Tuck | nonRefactored/geomComponents/src/curve.cpp:88-110 | every point is replaced by the shift of it towards its prev and next neighbours (tuck and untuck differ only in the sign the shift carries) |
| Curves.Curve.Refine | nonRefactored/geomComponents/src/curve.cpp:112-121 | the count doubles; point i moves to 2i and slot 2i+1 holds the midpoint of points i and next(i) |
| Curves.Curve.Dual | nonRefactored/geomComponents/src/curve.cpp:123-131 | every point is replaced by the midpoint of it and its next point |
| StrHelpers.PiecesFree | utils/src/strHelpers.cpp:25-33 | no piece split off by the getline loop holds the delimiter |
| StrHelpers.PiecesJoin | utils/src/strHelpers.cpp:25-33 | joining the pieces with the delimiter gives the string back, except for a trailing delimiter, which yields no piece |
| StrHelpers.PiecesAfterItem | utils/src/strHelpers.cpp:29-31 | a delimiter-free item followed by the delimiter is split off as one piece |
| StrHelpers.SplitStep | utils/src/strHelpers.cpp:29-31 | one character of getline: the delimiter ends the current item, any other character extends it |
| StrHelpers.Split | utils/src/strHelpers.cpp:25-33 | the pieces of `s` are appended after the entries `elems` already held (also utils/src/helpers.cpp:26-33 and utils/helpers.cpp:26-33) |
| StrHelpers.Find | utils/src/strHelpers.cpp:37 | std::string::find: the first occurrence at or after the start, or -1 (npos) exactly when there is none |
| StrHelpers.Replace | utils/src/strHelpers.cpp:36-42 | true exactly when `from` occurs; then its first occurrence is replaced by `to` and the rest is kept, otherwise the string is unchanged (also utils/src/helpers.cpp:49-56 and utils/helpers.cpp:83-90) |
| Helpers.Rotated | inc/utils/collectionHelpers.h:9-12 | the left rotation by `k`: element i of the result is element (i + k) mod size of the input |
| Helpers.Back | utils/inc/helpers.h:77 | the loop's index step `(nextIndex - k + size) % size` stays in the buffer and is `k` places back, cyclically |
| Helpers.PermutedAsWritten | utils/inc/helpers.h:56-79 | a zero shift leaves the buffer unchanged; the length is always kept |
| Helpers.CyclicallyPermute | utils/inc/helpers.h:56-79 | the array method leaves exactly what the loop as written computes (PermutedAsWritten); the helpers.h copy is the one that compiles, inc/utils/collectionHelpers.h:11-31 is the same loop |
| Helpers.OrbitWraps | utils/inc/helpers.h:69-78 | after t steps from 0 the visited index plus t * k is a multiple of size |
| Helpers.OrbitReturns | utils/inc/helpers.h:69-78 | when gcd(size, k) == 1 the loop's index comes back to 0 after exactly size steps and not before |
| Helpers.CoprimeReturns | utils/inc/helpers.h:69-78 | with gcd(size, k) == 1 the orbit of 0 returns first after size steps |
| Helpers.OrbitDistinct | utils/inc/helpers.h:69-78 | with gcd(size, k) == 1 the size iterations store to size different cells |
| Helpers.VisitsAll | utils/inc/helpers.h:69-78 | with gcd(size, k) == 1 every cell is stored to by some iteration |
| Helpers.PermuteRotates | utils/inc/helpers.h:56-79 | when gcd(size, k) == 1 the loop as written is the left rotation by `k` |
| Helpers.PermuteNotRotation | utils/inc/helpers.h:56-79 | on four cells shifted by two the loop as written leaves [a, b, a, d], not the rotation [c, d, a, b] |
| Helpers.RotateLeft | inc/utils/collectionHelpers.h:9-12 | the corrected cyclic permutation: the array becomes its left rotation by `k`, for every shift |
| Helpers.Clamp | utils/inc/helpers.h:27-35 | below the minimum gives the minimum, above the maximum the maximum, otherwise the value; the lower bound is tested first (also inc/utils/numHelpers.h:21-28) |
| Helpers.ClampInRange | utils/inc/helpers.h:27-35 | with min <= max the result lies in [min, max] and clamping is idempotent |
| Helpers.ReverseGuardTooWeak | utils/inc/helpers.h:46 | the assertion `inputMapElement <= sizeOutputMap` lets `sizeOutputMap` itself through, one past the last output cell, while every index passes it |
| Helpers.ReverseMapUpTo | utils/inc/helpers.h:37-54 | the output of the first j iterations has sizeOutputMap entries |
| Helpers.FirstPosition | utils/inc/helpers.h:47-49 | the first position holding a value, or -1 exactly when it is absent |
| Helpers.PopulateReverseMap | utils/inc/helpers.h:37-54 | the array built by the loop is the reverse map of all inputs (ReverseMapUpTo), with the guard corrected to `0 <= x < sizeOutputMap`; also inc/utils/collectionHelpers.h:35-53 |
| Helpers.ReverseMapFirst | utils/inc/helpers.h:37-54 | the loop as written maps each non-default input value to the first position holding it, every other cell keeping the default, as long as the default output value is not a position (see Findings) |
| Helpers.ReverseMapDefaultClash | utils/inc/helpers.h:47-49 | when the default output value is itself a position (0), the loop as written maps a repeated value to its later position: [5, 5] maps 5 to 1, where the intended map gives 0 |
| Helpers.ReverseMapIntended | utils/inc/helpers.h:37-54 | the intended reverse map after j inputs: a cell is written only by the first occurrence of its value; it has sizeOutputMap entries |
| Helpers.ReverseMapIntendedFirst | utils/inc/helpers.h:37-54 | for every default output value, each non-default input value is mapped to its first position and every other cell keeps the default |
| Helpers.ReverseMapAgrees | utils/inc/helpers.h:37-54 | when the default output value is not a position, the loop as written and the intended map agree |
| Helpers.PopulateReverseMapFirst | utils/inc/helpers.h:37-54 | the loop with the guard corrected and a separate written flag per cell builds the intended reverse map |
| Helpers.ComputeHistogram | utils/inc/helpers.h:81-89 | the map's keys are exactly the values present and each is mapped to its number of occurrences (also inc/utils/collectionHelpers.h:56-62) |
| Helpers.Cell | utils/inc/helpers.h:192 | cell (i, j) of a row-major dim x dim matrix is an index of its buffer |
| Helpers.CellInjective | utils/inc/helpers.h:192 | different rows or columns give different cells |
| Helpers.CellOf | utils/inc/helpers.h:192 | every index of the buffer is the cell of some row and column |
| Helpers.TransposeMatrix | utils/inc/helpers.h:185-195 | the matrix is transposed in place: cell (i, j) ends up holding what cell (j, i) held (also inc/utils/numHelpers.h:32-39) |
| Helpers.SwapStep | utils/inc/helpers.h:192 | one swap of cell (i, j) with (j, i) extends the transposed part by one cell pair |
| Helpers.TransposeRow | utils/inc/helpers.h:190-193 | one pass of the outer loop makes rows and columns below i + 1 transposed |
| Helpers.TransposeTwice | utils/inc/helpers.h:185-195 | transposing keeps the diagonal, and transposing twice restores the matrix |
| Helpers.R | utils/inc/helpers.h:108 | `(color >> 24) & 0xff` is a byte (also utils/inc/color.cpp:4) |
| Helpers.G | utils/inc/helpers.h:109 | `(color >> 16) & 0xff` is a byte (also utils/inc/color.cpp:5) |
| Helpers.B | utils/inc/helpers.h:110 | `(color >> 8) & 0xff` is a byte (also utils/inc/color.cpp:6) |
| Helpers.A | utils/inc/helpers.h:111 | `color & 0xff` is a byte (also utils/inc/color.cpp:7) |
| Helpers.ChannelsRecompose | utils/inc/helpers.h:108-111 | the four channel bytes, most significant first, make up the 32-bit colour again |
| Helpers.PaletteDistinct | utils/inc/helpers.h:91-104 | the COLORS palette values are pairwise different, and every colour but NONE is opaque (alpha 0xff) |
| CornerOps.Quot3 | geomUtils/inc/mesh.h:215 | C++ `c/3`: the mathematical quotient for non-negative corners, truncated toward zero for negative ones |
| CornerOps.Rem3 | geomUtils/inc/mesh.h:216-217 | C++ `%3`: dividend = 3 * quotient + remainder, the remainder in [0, 3) for non-negative and in (-3, 0] for negative dividends |
| CornerOps.T | geomUtils/inc/mesh.h:215 | a corner lies in [3t, 3t+3) of its triangle t; the sentinel -1 lands in triangle 0 |
| CornerOps.Offset | geomUtils/inc/mesh.h:224-225 | the offset is in [0, 3) and c(t(c)) + offset(c) == c |
| CornerOps.N | geomUtils/inc/mesh.h:216 | n(c) is another corner of the same triangle; n(-1) is corner 0 |
| CornerOps.P | geomUtils/inc/mesh.h:217 | p(c) is another corner of the same triangle; p(-1) is corner 1 |
| CornerOps.NextPrevArithmetic | geomUtils/inc/mesh.h:216-217 | N and P agree with the source's `3*t(c) + (c+1)%3` and `3*t(c) + (c+2)%3` on every corner and on -1 |
| CornerOps.NextPrev | geomUtils/inc/mesh.h:216-217 | n and p are inverse to each other, n applied three times is the identity and p is n applied twice |
| CornerOps.StaysBelow | geomUtils/inc/mesh.h:216-217 | n and p of a live corner are live corners when the corner count is a multiple of three |
| CornerOps.L | geomUtils/inc/mesh.h:220 | l(c) = o(n(c)) is a live corner or -1 |
| CornerOps.R | geomUtils/inc/mesh.h:221 | r(c) = o(p(c)) is a live corner or -1 |
| CornerOps.S | geomUtils/inc/mesh.h:222 | s(c) = n(l(c)) is a live corner; across a boundary (l(c) == -1) it is corner 0 |
| CornerOps.U | geomUtils/inc/mesh.h:223 | u(c) = p(r(c)) is a live corner; across a boundary (r(c) == -1) it is corner 1 |
| CornerOps.UnswingSwing | geomUtils/inc/mesh.h:222-223 | on a consistent opposite table u(s(c)) == c wherever c has a left neighbour |
| CornerOps.SwingUnswing | geomUtils/inc/mesh.h:222-223 | on a consistent opposite table s(u(c)) == c wherever c has a right neighbour |
| CornerOps.SwingAcrossBoundary | geomUtils/inc/mesh.h:215-225 | a swing across a boundary lands on corner 0 of triangle 0 instead of stopping: s(c) is n(-1), and truncating division puts -1 in triangle 0 with n(-1) == 0 |
| CornerOps.SwingPow | geomUtils/inc/mesh.h:287-292 | any number of swings of a live corner is a live corner |
| CornerOps.Advance | geomUtils/inc/mesh.h:287-292 | the advanced iterator is marked as stepped, stands on a live corner, and is undone by an unswing wherever the swing crossed an interior edge |
| CornerOps.WalkOrbit | geomUtils/inc/mesh.h:315-323 | a loop from an iterator to endSwing(stop) that finishes visits the successive swings of its first corner, at least one of them when it starts unstepped |
| CornerOps.WalkStops | geomUtils/inc/mesh.h:315-326 | a finished loop ends at the first swing that reaches `stop`, and no earlier swing reaches it |
| CornerOps.SwingPowShift | geomUtils/inc/mesh.h:287-292 | swinging j times is swinging once and then j - 1 times |
| CornerOps.SwingRunIsOrbit | geomUtils/inc/mesh.h:325-326 | a closed run from beginSwing(c) to endSwing(c) lists s^0(c), s^1(c), ... and stops at the first k >= 1 with s^k(c) == c |
| ComputeOpposites.Count | geomUtils/inc/mesh.h:594-597 | the number of occurrences of a vertex is at most the length of the table |
| ComputeOpposites.ValencesSum | geomUtils/inc/mesh.h:589-605 | when every corner names a vertex, the valences add up to the number of corners, so the buckets fill the corner list exactly |
| ComputeOpposites.PrefixSumLayout | geomUtils/inc/mesh.h:600-606 | the running sums of non-negative valences lay out the vertex buckets in vertex order, disjoint and inside their total |
| ComputeOpposites.BucketLayout | geomUtils/inc/mesh.h:589-606 | the buckets built from the live corners' valences lie inside the live corners and do not overlap |
| ComputeOpposites.CountValences | geomUtils/inc/mesh.h:589-598 | phase 1: entry v of the result is the number of live corners of vertex v |
| ComputeOpposites.FirstIncidentCorners | geomUtils/inc/mesh.h:600-606 | phase 2: the first slot of each vertex's bucket is the sum of the valences of the vertices before it |
| ComputeOpposites.SlotInRange | geomUtils/inc/mesh.h:615-616 | the slot the scatter phase writes for a live corner lies inside its vertex's bucket, so inside the corner list |
| ComputeOpposites.OutsideOtherBuckets | geomUtils/inc/mesh.h:615-616 | the slot written for one vertex lies in no other vertex's bucket |
| ComputeOpposites.ScatterStep | geomUtils/inc/mesh.h:614-618 | one scatter step writes a slot inside the corner list and keeps every earlier corner in its slot, with filled slots holding corners of their vertex |
| ComputeOpposites.ScatterCorners | geomUtils/inc/mesh.h:608-618 | phase 3: every slot of a bucket holds a live corner of that vertex, every live corner sits in its own slot of its bucket, and every live opposite is reset to -1 while the stale tail is kept |
| ComputeOpposites.MatchPair | geomUtils/inc/mesh.h:625-635 | the two tests for one pair of slots never unset an opposite, leave the pair matched in both directions where the corners follow each other, and keep the stale tail |
| ComputeOpposites.MatchPairSound | geomUtils/inc/mesh.h:625-635 | every opposite the two tests set joins two corners that see the same edge in opposite directions |
| ComputeOpposites.DoneGrows | geomUtils/inc/mesh.h:620-638 | a pair matched earlier stays matched while later pairs are processed |
| ComputeOpposites.DoneStep | geomUtils/inc/mesh.h:623-636 | matching the pair (c1, c2) extends the finished pairs to (c1, c2 + 1) |
| ComputeOpposites.DoneRow | geomUtils/inc/mesh.h:622-637 | finishing the inner loop moves the finished pairs on to the next first slot |
| ComputeOpposites.DoneEnter | geomUtils/inc/mesh.h:620-622 | entering a vertex's bucket keeps all earlier buckets finished |
| ComputeOpposites.DoneLeave | geomUtils/inc/mesh.h:620-638 | leaving a vertex's bucket leaves all its slot pairs finished |
| ComputeOpposites.MatchOpposites | geomUtils/inc/mesh.h:620-638 | phase 4: the loops leave every set opposite joining two corners facing the same edge, every slot pair of every bucket matched, and the stale tail untouched |
| ComputeOpposites.DoneComplete | geomUtils/inc/mesh.h:620-638 | once every bucket pair is matched, every live corner that faces a corner of another triangle has an opposite |
| ComputeOpposites.FacingPairDone | geomUtils/inc/mesh.h:625-635 | two facing corners share a vertex bucket, so some matched pair gave the first of them an opposite |
| ComputeOpposites.FacingAcross | geomUtils/inc/mesh.h:587-639 | on an oriented manifold (no triangle repeats a vertex) two facing corners lie in different triangles |
| ComputeOpposites.FacingUnique | geomUtils/inc/mesh.h:587-639 | on an oriented manifold a directed edge is seen by one live corner only |
| ComputeOpposites.ManifoldConsistent | geomUtils/inc/mesh.h:587-639 | on an oriented manifold a sound and complete opposite table is a fixed-point-free involution |
| MeshTopology.SetOpp | geomUtils/inc/mesh.h:125-131 | setOpposites(a, b) points a at b and b at a, each only when it is an index of the table (the source tests only for -1), and keeps the table's length |
| MeshTopology.SetOppOnly | geomUtils/inc/mesh.h:125-131 | setOpposites touches no entry but the two it links |
| MeshTopology.SetOppBounded | geomUtils/inc/mesh.h:125-131 | linking live corners (or -1) keeps every live entry a live corner or -1 |
| MeshTopology.LinkKeepsConsistent | geomUtils/inc/mesh.h:125-131 | linking two distinct corners that had no opposite keeps the table a fixed-point-free involution |
| MeshTopology.Zip | geomUtils/inc/mesh.h:1274-1283 | zipAdjacent links l(c1) with r(c1) and l(c2) with r(c2); live entries stay live corners or -1 |
| MeshTopology.Invalidate | geomUtils/inc/mesh.h:1534-1539 | setOTable(x, -1) over the next-iterator of a corner isolates its whole triangle and changes no other corner |
| MeshTopology.RelocStep | geomUtils/inc/mesh.h:1318-1322 | one pass of removeTriangle's loop keeps the table's length |
| MeshTopology.RelocOtPasses | geomUtils/inc/mesh.h:1317-1322 | the relocation is the three passes of the loop, one per corner, in next-iterator order |
| MeshTopology.RelocVMoves | geomUtils/inc/mesh.h:1317-1322 | the relocation copies the last triangle's three vertices into the freed slot and leaves every other entry |
| MeshTopology.Moved | geomUtils/inc/mesh.h:1309-1331 | a corner of the moved triangle keeps its offset in the freed slot; every other corner stays where it is |
| MeshTopology.RemoveTriangle | geomUtils/inc/mesh.h:1309-1331 | removing a triangle keeps the mesh valid with one triangle and three corners fewer |
| MeshTopology.RemovedTm | geomUtils/inc/mesh.h:1324 | the last triangle's marker lands in the freed slot |
| MeshTopology.RemoveTriangleLog | geomUtils/inc/mesh.h:1309-1331 | removeTriangle moves the last marker into the freed slot and sends exactly one notification (last, freed) when a triangle moved and none otherwise; vertices, points and the vertex log stay |
| MeshTopology.RemoveTriangleMoves | geomUtils/inc/mesh.h:1309-1331 | every live corner outside the removed triangle keeps its vertex at its new place |
| MeshTopology.RemoveTriangleOt | geomUtils/inc/mesh.h:1309-1331 | the opposite table left behind is the relocation of the last triangle into the freed slot, or unchanged when the last triangle was removed |
| MeshTopology.RemoveTriangleVt | geomUtils/inc/mesh.h:1309-1331 | the vertex table left behind is the relocation of the last triangle's vertices, or unchanged when the last triangle was removed |
| MeshTopology.RelocClosed | geomUtils/inc/mesh.h:1317-1322 | when the moved triangle's neighbours lie outside both triangles, the relocation points the new corners at those neighbours and the neighbours back at the new corners, and changes nothing else |
| MeshTopology.RelocReady | geomUtils/inc/mesh.h:1309-1331 | in a table where no triangle faces itself and the removed triangle is isolated, the last triangle's neighbours lie outside both triangles and are distinct |
| MeshTopology.RelocateMoves | geomUtils/inc/mesh.h:1317-1322 | moving the last triangle into an isolated slot relabels the opposites: a corner's new place faces the new place of its old opposite |
| MeshTopology.MovedApart | geomUtils/inc/mesh.h:1309-1331 | corners of different triangles stay in different triangles after the move |
| MeshTopology.RemovedOtOpposed | geomUtils/inc/mesh.h:1309-1331 | removing an isolated triangle keeps the opposite table an involution in which no triangle faces itself |
| MeshTopology.RemovedOtMoves | geomUtils/inc/mesh.h:1309-1331 | removing an isolated triangle relabels every other live opposite by the move of the last triangle |
| MeshTopology.ZipClear | geomUtils/inc/mesh.h:1529-1539 | after zipping and clearing, both doomed triangles are isolated and every live entry is a live corner or -1 |
| MeshTopology.ZipClearClosed | geomUtils/inc/mesh.h:1274-1283 | when the four outer neighbours are distinct and outside both triangles, the zip links l1 with r1 and l2 with r2, clears the two triangles and leaves every other entry (also mesh.h:1529-1539) |
| MeshTopology.ZipReady | geomUtils/inc/mesh.h:1516-1529 | for a collapsible edge, the two triangles differ, face each other, and their four outer neighbours are distinct and outside both |
| MeshTopology.ZipClearOpposed | geomUtils/inc/mesh.h:1529-1539 | zipping and clearing two facing triangles keeps every live link two-way and between different triangles |
| MeshTopology.Relabel | geomUtils/inc/mesh.h:120-123 | setVTable over a list of corners: listed corners take the new vertex, every other entry keeps its vertex (also mesh.h:1523-1525) |
| MeshTopology.Fan | geomUtils/inc/mesh.h:1523-1525 | the fan of a corner, when it closes within MAX_VALENCE swings, is the swing orbit of that corner, starting at it |
| MeshTopology.ReplaceVertex | geomUtils/inc/mesh.h:1293-1296 | replaceVertex changes the point of that vertex and nothing else |
| MeshTopology.RemoveVertex | geomUtils/inc/mesh.h:1333-1338 | removeVertex tombstones that vertex only, sends the notification (v, -1) and changes nothing else |
| MeshTopology.EdgeEnds | geomUtils/inc/mesh.h:1518-1521 | v(n(c)) and v(p(c)) are vertices of the mesh |
| MeshTopology.CollapsePrepare | geomUtils/inc/mesh.h:1514-1539 | the first half of collapseEdge keeps the mesh valid and the counters, relabels the fan of p(corner) to v(n(corner)), zips and clears the two triangles, moves v(n(corner)) to the point and tombstones v(p(corner)) with one notification |
| MeshTopology.RemovePair | geomUtils/inc/mesh.h:1541-1542 | the two removals keep the mesh valid with two triangles and six corners fewer and the same vertices |
| MeshTopology.CollapseEdge | geomUtils/inc/mesh.h:1514-1544 | collapseEdge keeps the mesh valid with two triangles fewer, returns v(n(corner)), and logs one triangle notification per moved triangle, the higher triangle first |
| MeshTopology.RemovePairLog | geomUtils/inc/mesh.h:1541-1542 | removing two triangles sends one notification per triangle moved, in removal order |
| MeshTopology.RemoveTriangleOpposed | geomUtils/inc/mesh.h:1309-1331 | removing an isolated triangle from a table where no triangle faces itself keeps that property and the involution |
| MeshTopology.RemoveTriangleIs | geomUtils/inc/mesh.h:1309-1331 | removeTriangle, field by field: vertex, opposite and marker tables relocated, one notification, counters down |
| MeshTopology.RemovedKeepsIsolated | geomUtils/inc/mesh.h:1309-1331 | removing an isolated triangle keeps every isolated triangle below the last one isolated |
| MeshTopology.RemoveTriangleKeepsIsolated | geomUtils/inc/mesh.h:1309-1331 | so the second triangle collapseEdge removes is still isolated after the first removal |
| MeshTopology.RemoveTriangleRelabels | geomUtils/inc/mesh.h:1309-1331 | after removing an isolated triangle, every other live corner, at its new place, faces the new place of its old opposite |
| MeshTopology.RemovePairOpposed | geomUtils/inc/mesh.h:1541-1542 | removing the two isolated triangles keeps the opposite table an involution between different triangles |
| MeshTopology.RemovePairOt | geomUtils/inc/mesh.h:1541-1542 | the opposite table after both removals is the higher removal followed by the lower one |
| MeshTopology.RemovePairIs | geomUtils/inc/mesh.h:1541-1542 | the two removals are removeTriangle of the higher corner then of the lower corner, whose triangle lies below the higher one |
| MeshTopology.RemovePairRelabels | geomUtils/inc/mesh.h:1541-1542 | after both removals every other live corner, at its new place, faces the new place of its old opposite |
| MeshTopology.RemovePairMoves | geomUtils/inc/mesh.h:1541-1542 | after both removals every other live corner keeps its vertex at its new place |
| MeshTopology.RemovePairKeeps | geomUtils/inc/mesh.h:1541-1542 | the two removals leave the points, tombstones, vertex markers and vertex log alone |
| MeshTopology.CollapseEdgeIs | geomUtils/inc/mesh.h:1514-1544 | collapseEdge is its first half followed by the removal of the higher and then the lower triangle |
| MeshTopology.CollapseKeepsOpposed | geomUtils/inc/mesh.h:1514-1544 | collapsing an edge that does not pinch the mesh keeps the opposite table an involution between different triangles |
| MeshTopology.CollapseReady | geomUtils/inc/mesh.h:1514-1539 | after the first half, the mesh is valid, the two triangles differ and are isolated, and no triangle faces itself |
| MeshTopology.CollapseEdgeLog | geomUtils/inc/mesh.h:1514-1544 | v(n(corner)) takes the point, v(p(corner)) is tombstoned with one (v, -1) notification, and the vertex count stays |
| MeshTopology.CollapseEdgeVertices | geomUtils/inc/mesh.h:1514-1544 | every corner outside the two removed triangles, at its new place, names v(n(corner)) if it was in the fan of p(corner) and its old vertex otherwise |
| MeshEdits.AddVertex | geomUtils/inc/mesh.h:1285-1291 | addVertex appends the point as vertex nv, not tombstoned and unmarked, keeps every earlier vertex and leaves the corner tables and logs alone |
| MeshEdits.AddTriangleAsWritten | geomUtils/inc/mesh.h:1298-1307 | push_back appends the three vertices after the whole vector, stale tail included, while the counters grow by one triangle |
| MeshEdits.AddTriangle | geomUtils/inc/mesh.h:1298-1307 | the new triangle nt has corners nc, nc + 1, nc + 2 naming v1, v2, v3, default-constructed opposites and marker 0; every earlier corner and triangle keeps its entries and bounds and vertex ranges are kept |
| MeshEdits.AddTriangleAgrees | geomUtils/inc/mesh.h:1298-1307 | when the vectors have no stale tail, addTriangle as written and as intended give the same mesh |
| MeshEdits.RemovalLeavesTail | geomUtils/inc/mesh.h:1309-1331 | removeTriangle leaves the vertex vector at least three entries longer than the live corners |
| MeshEdits.AddAfterRemoveIsStale | geomUtils/inc/mesh.h:1298-1331 | in a two-triangle mesh, removing the second triangle and adding (7, 8, 9) leaves corner 3 naming the stale vertex 0, not 7 |
| MeshEdits.MoveVertex | geomUtils/inc/mesh.h:1340-1344 | moveVertex copies the point of `from` to `to`, keeps every other point and sends the notification (from, to) |
| MeshEdits.ResetMarkers | geomUtils/inc/mesh.h:204-209 | every vertex and triangle marker becomes 0 and every tombstone is lifted, keeping the sizes and every other table |
| MeshEdits.CornerOf | geomUtils/inc/mesh.h:228-235 | c(t, v) is -1 exactly when no corner of t names v, and otherwise the first corner of t in next order that names v |
| MeshEdits.ReplayAppend | geomUtils/inc/mesh.h:1472-1482 | the handler fed two logs one after the other ends as if fed their concatenation (also mesh.h:1587-1592) |
| MeshEdits.ReplayNotice | geomUtils/inc/mesh.h:1472-1482 | one removeTriangle notification moves each tracked triangle as the removal moved it, when the two differ and neither is the removed one (also mesh.h:1309-1331) |
| MeshEdits.MovedCorner | geomUtils/inc/mesh.h:1309-1331 | a corner keeps its offset when its triangle moves, and lands in the moved triangle |
| MeshEdits.TwoMoves | geomUtils/inc/mesh.h:1541-1542 | under the two moves of collapseEdge a corner outside both removed triangles keeps its offset in the triangle it is moved to, and the first move never lands on the second removed triangle |
| MeshEdits.ReplayBoth | geomUtils/inc/mesh.h:1472-1482 | after both removal notices each tracked triangle is where the two moves took it (also mesh.h:1541-1542) |
| MeshEdits.RebuiltCorner | geomUtils/inc/mesh.h:1509 | a corner rebuilt as c(moved triangle) + saved offset is the relocated corner |
| MeshEdits.RebuiltIs | geomUtils/inc/mesh.h:1509 | the rebuilt corners are three times the reported triangles plus the saved offsets |
| MeshEdits.HandlerTracks | geomUtils/inc/mesh.h:1472-1482 | for two different tracked triangles, neither removed, the corners rebuilt from the handler's report are the relocated l(corner) and r(corner) (also mesh.h:1509) |
| MeshEdits.ReceivedIs | geomUtils/inc/mesh.h:1505-1507 | what a log received in one append is exactly the appended part |
| MeshEdits.CollapseNotices | geomUtils/inc/mesh.h:1505-1507 | the handler registered around the first collapseEdge receives exactly that call's two removal notices |
| MeshEdits.CollapseTriangle | geomUtils/inc/mesh.h:1493-1512 | collapseTriangle removes four triangles, keeps the mesh valid and the vertex count, and returns a vertex of the mesh |
| MeshEdits.ZipJoinsFlanks | geomUtils/inc/mesh.h:1274-1283 | zipping along the edge facing `corner` makes l(corner) and r(corner) face each other, both outside the two triangles, and keeps the table opposed (also mesh.h:1496-1498) |
| MeshEdits.FirstCollapseJoins | geomUtils/inc/mesh.h:1505 | after the first collapseEdge the relocated l(corner) faces the relocated r(corner) |
| MeshEdits.SecondEdgeIs | geomUtils/inc/mesh.h:1509 | the second collapseEdge is handed the relocated l(corner) and r(corner) |
| MeshEdits.SecondEdgeReceives | geomUtils/inc/mesh.h:1503-1509 | the handler rebuilds its two corners from the notices of the first collapseEdge |
| MeshEdits.CollapseTriangleTracks | geomUtils/inc/mesh.h:1493-1512 | on an opposed mesh the second collapseEdge gets the relocated l(corner) and r(corner), which face each other, so its assertion corner == o(oppositeCorner) holds (also mesh.h:1516) |
| MeshExpand.SwingSpan | geomUtils/inc/mesh.h:1438-1441 | the corners the relabelling loop visits, when it ends within MAX_VALENCE steps, are the successive swings of s(c1), stopping at the first swing that reaches s(c2) |
| MeshExpand.ExpandOt | geomUtils/inc/mesh.h:1452-1467 | the five setOpposites calls keep every live entry a live corner or -1 and keep the length |
| MeshExpand.FirstLinks | geomUtils/inc/mesh.h:1452-1453 | the first two calls keep every live entry a live corner or -1 |
| MeshExpand.ExpandOtAt | geomUtils/inc/mesh.h:1452-1467 | when l(c1) and l(c2) are corners and n(c2) is neither l(c1) nor n(c1), the five calls link l(c1), n(c1), l(c2) and n(c2) to the new triangles and the new triangles to each other, entry by entry as Linked says |
| MeshExpand.ExpandOtChain | geomUtils/inc/mesh.h:1452-1467 | the five calls are a chain of setOpposites, each swing taken on the table the earlier calls left |
| MeshExpand.SecondSwing | geomUtils/inc/mesh.h:1452-1458 | p(s(c1)) is l(c1), and after the first two calls p(s(c2)) is still l(c2) |
| MeshExpand.ExpandKeepsOpposed | geomUtils/inc/mesh.h:1452-1467 | when l(c1), n(c1), l(c2) and n(c2) are four different corners and l(c1), l(c2) are not boundaries, the five calls keep the opposites an involution between different triangles |
| MeshExpand.LinkedAt | geomUtils/inc/mesh.h:1452-1467 | the relinked entry of every corner is a live corner or -1, and a set entry points back and into another triangle |
| MeshExpand.NewCornerLinked | geomUtils/inc/mesh.h:1452-1467 | each of the six new corners is linked to a partner in another triangle that points back |
| MeshExpand.OldEndLinked | geomUtils/inc/mesh.h:1452-1467 | l(c1), n(c1), l(c2) and n(c2) are each linked to a new corner that points back |
| MeshExpand.SplitVt | geomUtils/inc/mesh.h:1438-1441 | the relabelling loop keeps the length of the vertex table |
| MeshExpand.GapVt | geomUtils/inc/mesh.h:1444-1450 | the two addTriangle calls, read as corrected (appended at nc), give six entries after the live corners and keep every live corner's vertex |
| MeshExpand.GapOt | geomUtils/inc/mesh.h:1444-1450 | the two addTriangle calls, read as corrected (appended at nc), give six default-constructed opposites after the live ones |
| MeshExpand.AddGap | geomUtils/inc/mesh.h:1444-1450 | the two new triangles keep the mesh valid with two triangles and six corners more |
| MeshExpand.AddGapIsTwoAdds | geomUtils/inc/mesh.h:1444-1450 | the gap is addTriangle(v(c1), v(p(c1)), v(c2)) then addTriangle(v(c2), v(p(c2)), v(c1)) when fAddTriangles, else addTriangle(v(c1), v(c2), v(p(c2))), with the corrected addTriangle |
| MeshExpand.AddGapAgrees | geomUtils/inc/mesh.h:1444-1450 | on a mesh without a stale tail (vectors of exactly nc entries) the gap is also those two calls of addTriangle as written |
| MeshExpand.ExpandVertex | geomUtils/inc/mesh.h:1432-1468 | expandVertex, with addTriangle read as corrected (see Left out), keeps the mesh valid, adds one vertex and two triangles, moves v(c1) to geom1, appends geom2 as the new vertex nv, returns it, and sends no notification |
| MeshExpand.SplitStage | geomUtils/inc/mesh.h:1434-1441 | replaceVertex(v(c1), geom1), addVertex(geom2) and the relabelling keep the mesh valid, with one vertex more carrying geom2 and not removed |
| MeshExpand.ExpandVertexIsGap | geomUtils/inc/mesh.h:1432-1468 | expandVertex is the split stage, then the two added triangles, then the five links, in source order |
| MeshExpand.ExpandVertexAgrees | geomUtils/inc/mesh.h:1432-1468 | on a mesh without a stale tail, expandVertex equals the source's sequence with addTriangle as written: the split, the two as-written additions with the relabelled vertices, and the five links |
| MeshExpand.ExpandedOt | geomUtils/inc/mesh.h:1444-1467 | the opposite table after expandVertex has six more entries, every live one a live corner or -1 |
| MeshExpand.ExpandVertexTables | geomUtils/inc/mesh.h:1432-1468 | the vertex and opposite tables expandVertex leaves are the gap appended to the relabelled table, then linked |
| MeshExpand.ExpandedOtOpposed | geomUtils/inc/mesh.h:1432-1468 | under the same conditions as ExpandKeepsOpposed the final opposite table is an involution between different triangles |
| MeshExpand.ExpandVertexCorners | geomUtils/inc/mesh.h:1438-1450 | the corners of the swing span name the new vertex, every other old corner keeps its vertex, and the new triangles name v(c1), v(p(c1)), v(c2), v(p(c2)) as relabelled |
| MeshExpand.GapCorners | geomUtils/inc/mesh.h:1444-1450 | where the six new vertex entries come from, for both values of fAddTriangles |
| MeshExpand.ExpandSpanEnds | geomUtils/inc/mesh.h:1431 | on a closed mesh with an involutive opposite table the relabelled corners run from s(c1) to c2, as the comment on expandVertex says (also mesh.h:1438-1441) |
| MeshCompact.Survivors | geomUtils/inc/mesh.h:1354-1361 | the vertices compressVTable hands new indices to: exactly the non-removed ones, in increasing order |
| MeshCompact.SurvivorsPrefix | geomUtils/inc/mesh.h:1354-1361 | the survivors among the first j vertices are the first Rank(j) survivors |
| MeshCompact.RankOf | geomUtils/inc/mesh.h:1356-1359 | a surviving vertex's new index is its position among the survivors |
| MeshCompact.CompressMap | geomUtils/inc/mesh.h:1350-1361 | vToCompressedVMap sends each survivor to its position among the survivors and leaves a removed vertex at the fill value 0 |
| MeshCompact.CompressMapInverse | geomUtils/inc/mesh.h:1354-1361 | the i-th survivor is mapped to i |
| MeshCompact.CompressKeepsOrder | geomUtils/inc/mesh.h:1354-1361 | survivors keep their relative order under the renaming |
| MeshCompact.ReclaimMemory | geomUtils/inc/mesh.h:1346-1395 | reclaimMemory keeps the mesh valid, sets nv to the number of survivors, keeps nt and nc, cuts every vector to its live length, clears every tombstone and sends no triangle notification |
| MeshCompact.Renamed | geomUtils/inc/mesh.h:1364-1366 | every live corner's vertex is renamed through the map |
| MeshCompact.Gathered | geomUtils/inc/mesh.h:1354-1361 | the compacted points are the survivors' points, in survivor order |
| MeshCompact.MoveLog | geomUtils/inc/mesh.h:1358 | survivor i is notified as moving from its old index to i (also mesh.h:1340-1344) |
| MeshCompact.ReclaimTables | geomUtils/inc/mesh.h:1346-1395 | the tables reclaimMemory leaves: renamed vertex table, gathered points, the vertex log extended by the moves, opposites and markers cut to length |
| MeshCompact.ReclaimMovesVertex | geomUtils/inc/mesh.h:1354-1361 | a surviving vertex keeps its point at its new index, and its move is notified as (old, new) |
| MeshCompact.ReclaimKeepsCorner | geomUtils/inc/mesh.h:1364-1366 | every live corner on a surviving vertex names a vertex of the compacted mesh that has the same point |
| MeshCompact.ReclaimVerticesIn | geomUtils/inc/mesh.h:1376-1381 | with every live corner on a surviving vertex, every live corner names a vertex below the new nv (the _DEBUG assertion) |
| MeshCompact.ReclaimOpposed | geomUtils/inc/mesh.h:1383-1388 | cutting the opposite table keeps a cross-triangle involution |
| MeshCompact.NoneRemoved | geomUtils/inc/mesh.h:1354-1361 | without tombstones every vertex survives, in place |
| MeshCompact.IdentityMap | geomUtils/inc/mesh.h:1354-1361 | without tombstones the renaming is the identity |
| MeshCompact.RenamedIdentity | geomUtils/inc/mesh.h:1364-1366 | without tombstones the vertex table is renamed to itself |
| MeshCompact.GatheredIdentity | geomUtils/inc/mesh.h:1354-1361 | without tombstones every point stays in place |
| MeshCompact.MoveLogIdentity | geomUtils/inc/mesh.h:1358 | without tombstones every vertex is told it stays where it is |
| MeshCompact.CompactKeepsVt | geomUtils/inc/mesh.h:1346-1395 | on a compact mesh without tombstones reclaimMemory keeps the vertex table |
| MeshCompact.CompactKeepsG | geomUtils/inc/mesh.h:1346-1395 | on a compact mesh without tombstones reclaimMemory keeps the points |
| MeshCompact.CompactMoves | geomUtils/inc/mesh.h:1346-1395 | on a compact mesh reclaimMemory only sends the identity notifications |
| MeshCompact.CompactKeepsRest | geomUtils/inc/mesh.h:1346-1395 | on a compact mesh reclaimMemory keeps the opposites, markers, counters and triangle log |
| MeshCompact.ReclaimCompact | geomUtils/inc/mesh.h:1346-1395 | a compact mesh without tombstones is left as it is, up to the identity notifications |
| MeshCompact.ReclaimTwice | geomUtils/inc/mesh.h:1346-1395 | reclaimMemory called again right away changes no table and only notifies every vertex that it stays |
| MeshCompact.CoprimeThree | geomUtils/inc/mesh.h:1402-1408 | the shifts 1 and 2 on three entries are coprime with 3 |
| MeshCompact.RotatesThree | geomUtils/inc/mesh.h:1407-1408 | on three entries cyclicallyPermute as written is the left rotation for every shift below 3 |
| MeshCompact.PermuteTriangle | geomUtils/inc/mesh.h:1407-1408 | cyclicallyPermute(&table[3t], 3, k) changes no entry outside triangle t |
| MeshCompact.PermuteTriangleAt | geomUtils/inc/mesh.h:1407-1408 | inside the triangle slot j takes what slot (j + k) % 3 held |
| MeshCompact.Rotate3 | geomUtils/inc/mesh.h:1407-1408 | the rotated table keeps every entry outside the triangle and puts slot (j + k) % 3 into slot j |
| MeshCompact.PermuteTriangleRotates | geomUtils/inc/mesh.h:1407-1408 | cyclicallyPermute as written on a triangle's three entries is the rotation Rotate3 |
| MeshCompact.BackLink | geomUtils/inc/mesh.h:1409-1411 | `m_OTable[m_OTable[x]] = x` keeps the table's length |
| MeshCompact.ShiftedOt | geomUtils/inc/mesh.h:1400-1413 | the opposite table after the rotation and the three back links keeps its length |
| MeshCompact.ShiftedOtAt | geomUtils/inc/mesh.h:1407-1411 | when the triangle's neighbours lie elsewhere and differ, each neighbour faces the slot that now holds it and every other entry is the rotated one |
| MeshCompact.Sigma | geomUtils/inc/mesh.h:1397-1399 | the renaming moves the corner at offset j to offset (j - k) mod 3 of the same triangle and keeps every other corner |
| MeshCompact.SigmaInv | geomUtils/inc/mesh.h:1397-1399 | every corner is the new name of some corner |
| MeshCompact.SigmaFacts | geomUtils/inc/mesh.h:1397-1399 | the renaming is one-to-one and keeps every corner in its triangle |
| MeshCompact.RotateRenames | geomUtils/inc/mesh.h:1407-1408 | after the rotation every entry sits under its corner's new name |
| MeshCompact.RotatedSpread | geomUtils/inc/mesh.h:1400-1413 | in a consistent table a triangle with three neighbours has them in other triangles, all different, facing the corner that moved to each slot |
| MeshCompact.TriangleSpread | geomUtils/inc/mesh.h:1400-1413 | in a consistent table a triangle with three neighbours has them elsewhere, all different, facing back |
| MeshCompact.ShiftedRenames | geomUtils/inc/mesh.h:1407-1411 | the rotation and the back links rename both ends of every link |
| MeshCompact.ShiftedOtRenames | geomUtils/inc/mesh.h:1400-1413 | the opposite of a renamed corner is the renamed opposite |
| MeshCompact.ShiftedOpposed | geomUtils/inc/mesh.h:1400-1413 | shiftTriangleCorners keeps the opposite table an involution between different triangles |
| MeshCompact.ShiftTriangleCorners | geomUtils/inc/mesh.h:1400-1413 | shiftTriangleCorners keeps the mesh valid; nothing happens when c is already first |
| MeshCompact.ShiftStartsAt | geomUtils/inc/mesh.h:1397-1413 | the start corner's vertex and opposite land in the first slot of its triangle, and only the vertex and opposite tables change |
| MeshCompact.ShiftStartVertex | geomUtils/inc/mesh.h:1407 | the start corner's vertex lands in slot c(t(c)) |
| MeshCompact.ShiftStartOpposite | geomUtils/inc/mesh.h:1408-1411 | the start corner's opposite lands in slot c(t(c)) |
| MeshCompact.ShiftRenames | geomUtils/inc/mesh.h:1400-1413 | every corner, under its new name, keeps its vertex, and its opposite is the renamed old opposite |
| MeshCompact.ShiftKeepsMesh | geomUtils/inc/mesh.h:1400-1413 | shifting keeps the opposite table a cross-triangle involution and every corner on a live vertex |
| MeshChecks.WalkMoreFuel | geomUtils/inc/mesh.h:742 | a swing loop that finishes within some bound finishes the same way within any larger bound |
| MeshChecks.FanMoreFuel | geomUtils/inc/mesh.h:742 | a fan that closes within a bound closes within every larger bound, with the same corners |
| MeshChecks.GetValence | geomUtils/inc/mesh.h:1160-1165 | getValence counts the corners from beginSwing(c) to endSwing(c): when the fan closes within the bound, the count is the first k >= 1 with s^k(c) == c, and None exactly when it does not close |
| MeshChecks.WalkStep | geomUtils/inc/mesh.h:742-747 | one more iteration of the swing loop keeps the rest of the walk deciding the outcome |
| MeshChecks.IsValenceBounded | geomUtils/inc/mesh.h:739-749 | isValenceBounded is true exactly when maxValence >= 0 and the fan closes within maxValence corners |
| MeshChecks.CheckOConsistency | geomUtils/inc/mesh.h:762-773 | with the asserts compiled out, checkOConsistency reports exactly the corners with o(o(c)) != c, each once in corner order; a boundary corner, where the source reads o(-1) out of range, is reported (see Left out) |
| MeshChecks.ReportsBoundaries | geomUtils/inc/mesh.h:762-773 | on a consistent table exactly the boundary corners are reported; a table with nothing reported and no self-facing corner is consistent and closed |
| MeshChecks.CheckMaxValence | geomUtils/inc/mesh.h:751-760 | checkMaxValence reports exactly the corners whose fan does not close within MAX_VALENCE, each once in corner order |
| MeshChecks.ReportUnbounded | geomUtils/inc/mesh.h:751-760 | the loop of checkMaxValence for any bound reports exactly the corners whose fan does not close within it |
| MeshChecks.CheckMesh | geomUtils/inc/mesh.h:733-737 | checkMesh runs both checks; on a closed table whose opposites are an involution the consistency check reports nothing |
| Meshes.RemoveTriangleFields | geomUtils/inc/mesh.h:1309-1331 | removeTriangle, field by field, in the form the class method builds it |
| Meshes.RunOf | geomUtils/inc/mesh.h:325-326 | the corners from beginSwingIterator(start) to endSwingIterator(stop) are a swing run of live corners |
| Meshes.WalkNext | geomUtils/inc/mesh.h:287-292 | a walk that has not reached its end is its current corner followed by the walk from the advanced iterator |
| Meshes.FirstLinkSteps | geomUtils/inc/mesh.h:1452-1453 | the first two setOpposites calls, made one at a time, give FirstLinks |
| Meshes.LinkGapSteps | geomUtils/inc/mesh.h:1455-1467 | the last three setOpposites calls, made one at a time after the first two, give the five-call table ExpandOt |
| Meshes.GapLinked | geomUtils/inc/mesh.h:1444-1467 | linking the appended gap is what expandVertex does to the opposite table |
| Meshes.ExpandVertexSteps | geomUtils/inc/mesh.h:1432-1468 | the split, the two added triangles and the five links, in that order, are expandVertex, and the new vertex is nv - 1 |
| Meshes.ExpandVertexFields | geomUtils/inc/mesh.h:1432-1468 | expandVertex, field by field |
| Meshes.CollapseTriangleSteps | geomUtils/inc/mesh.h:1493-1512 | collapseTriangle is collapseEdge on the result of the first collapseEdge with the corners the handler rebuilt, and that second call is allowed |
| Meshes.RankStep | geomUtils/inc/mesh.h:1354-1361 | one more vertex raises the next new index by one exactly when the vertex survives |
| Meshes.RankingHolds | geomUtils/inc/mesh.h:1350-1361 | the survivors and vToCompressedVMap are a pair the vertex loop can rely on |
| Meshes.SurvivorAt | geomUtils/inc/mesh.h:1356-1360 | at vertex v the next survivor is v exactly when v is kept, and the map sends it to the current count |
| Meshes.GatherKeep | geomUtils/inc/mesh.h:1356-1360 | a kept vertex gets index count, its point moves there and the move (v, count) is logged |
| Meshes.GatherSkip | geomUtils/inc/mesh.h:1356 | a removed vertex changes nothing but the loop index |
| Meshes.GatherStep | geomUtils/inc/mesh.h:1354-1361 | one pass of the vertex loop keeps its invariant |
| Meshes.GatherDone | geomUtils/inc/mesh.h:1354-1361 | at the end of the vertex loop every survivor is gathered in order, the map is vToCompressedVMap and the log holds one move per survivor |
| Meshes.ReclaimSteps | geomUtils/inc/mesh.h:1383-1387 | after compressVTable, cutting every table to its live length gives reclaimMemory's result |
| Meshes.PermuteSlice | geomUtils/inc/mesh.h:1407-1408 | cyclicallyPermute on a pointer to a triangle's first slot permutes exactly those three entries as the routine is written |
| Meshes.PermuteSteps | geomUtils/inc/mesh.h:1407-1408 | splicing the permuted slice back is the rotation of the triangle |
| Meshes.RotateSlot | geomUtils/inc/mesh.h:1407-1408 | the table with one triangle's entries permuted in place is that triangle rotated left by k |
| Meshes.ShiftOpposites | geomUtils/inc/mesh.h:1408-1411 | permuting the opposites and then making `m_OTable[m_OTable[x]] = x` for the triangle's corners, in next order, gives ShiftedOt |
| Meshes.Mesh.constructor | geomUtils/inc/mesh.h:161-163 | a new mesh has empty tables and empty logs and is valid; its counters, which the source leaves uninitialised, start at 0 |
| Meshes.Mesh.SetOpposites | geomUtils/inc/mesh.h:125-131 | only the opposite table changes, to SetOpp of the old one (also geomUtils/src/mesh.cpp:24-30) |
| Meshes.Mesh.ZipAdjacent | geomUtils/inc/mesh.h:1274-1283 | with c1 == o(c2), only the opposite table changes, to Zip of the old one |
| Meshes.Mesh.AddVertex | geomUtils/inc/mesh.h:1285-1291 | the object ends in the state MeshEdits.AddVertex computes |
| Meshes.Mesh.ReplaceVertex | geomUtils/inc/mesh.h:1293-1296 | the object ends in the state MeshTopology.ReplaceVertex computes |
| Meshes.Mesh.AddTriangle | geomUtils/inc/mesh.h:1298-1307 | the object ends in the state MeshEdits.AddTriangle computes (the corrected reading) |
| Meshes.Mesh.RemoveTriangle | geomUtils/inc/mesh.h:1309-1331 | the object ends in the state MeshTopology.RemoveTriangle computes |
| Meshes.Mesh.Relocate | geomUtils/inc/mesh.h:1317-1322 | the loop copies the corners of triangle `from` into slot `to`, vertices copied and opposites linked back, and changes nothing else |
| Meshes.Mesh.RemoveVertex | geomUtils/inc/mesh.h:1333-1338 | the object ends in the state MeshTopology.RemoveVertex computes |
| Meshes.Mesh.MoveVertex | geomUtils/inc/mesh.h:1340-1344 | the object ends in the state MeshEdits.MoveVertex computes |
| Meshes.Mesh.ResetMarkers | geomUtils/inc/mesh.h:204-209 | the object ends in the state MeshEdits.ResetMarkers computes (also geomUtils/src/mesh.cpp:98-103) |
| Meshes.Mesh.RelabelRun | geomUtils/inc/mesh.h:1438-1441 | every corner of the swing run from start to stop takes vertex v; nothing else changes (also mesh.h:1523-1525) |
| Meshes.Mesh.InvalidateTriangle | geomUtils/inc/mesh.h:1534-1539 | the opposite table becomes Invalidate of the old one; nothing else changes |
| Meshes.Mesh.CollapseEdge | geomUtils/inc/mesh.h:1514-1544 | the object ends in the state MeshTopology.CollapseEdge computes and returns its kept vertex |
| Meshes.Mesh.ExpandVertex | geomUtils/inc/mesh.h:1432-1468 | the object ends in the state MeshExpand.ExpandVertex computes (addTriangle read as corrected) and returns the new vertex |
| Meshes.Mesh.SplitVertex | geomUtils/inc/mesh.h:1434-1441 | v(c1) takes g1, g2 is appended as a new unmarked vertex, and the swing span names it |
| Meshes.Mesh.AddGapTriangles | geomUtils/inc/mesh.h:1443-1450 | the two corrected addTriangle calls put the gap's vertex and opposite entries, two markers and two triangles right after the live ones |
| Meshes.Mesh.LinkGap | geomUtils/inc/mesh.h:1452-1467 | only the opposite table changes, to the five-call table ExpandOt |
| Meshes.Mesh.CollapseTriangle | geomUtils/inc/mesh.h:1493-1512 | the object ends in the state MeshEdits.CollapseTriangle computes and returns its kept vertex |
| Meshes.Mesh.ComputeO | geomUtils/inc/mesh.h:587-639 | only the live opposites change; every opposite found faces its corner across a shared edge, every corner facing another triangle gets one, and on an oriented manifold the table is an involution |
| Meshes.Mesh.ShiftTriangleCorners | geomUtils/inc/mesh.h:1400-1413 | the object ends in the state MeshCompact.ShiftTriangleCorners computes |
| Meshes.Mesh.ReclaimMemory | geomUtils/inc/mesh.h:1373-1395 | the object ends in the state MeshCompact.ReclaimMemory computes |
| Meshes.Mesh.CutTables | geomUtils/inc/mesh.h:1383-1387 | the resizes of reclaimMemory: every table is cut to its live length (nc corners, nt triangles, nv vertices) and nothing else changes |
| Meshes.Mesh.CompressVTable | geomUtils/inc/mesh.h:1346-1371 | gathers the survivors, renames the live corners, then sets nv to the number of survivors and clears the tombstones; cutting the tables afterwards gives reclaimMemory's result |
| Meshes.Mesh.GatherVertices | geomUtils/inc/mesh.h:1350-1361 | the map is vToCompressedVMap, the count is the number of survivors, their points are gathered in order and one move per survivor is logged |
| Meshes.Mesh.GatherRun | geomUtils/inc/mesh.h:1354-1361 | the vertex loop ends with every survivor gathered, and only points and the vertex log change |
| Meshes.Mesh.RenameCorners | geomUtils/inc/mesh.h:1364-1366 | every live corner's vertex goes through the map and nothing else changes |

## Left out

- Rendering, GL buffers, UI and input (`draw`, `updateColorsVBO`, `initVBO`, `display*`, `selectCorner`, `interpretCommand`, `onKeyPressed`): foreign GL and FLTK calls.
- `setSelectedCorner`, `notifySelectedCornerChange` and the corner-selection observers: UI state only.
- File I/O (`loadMeshVTS`, `saveMeshVTS`, `serializeMeshVTS`, `deserializeVTS`): memory-mapped files and libc parsing.
- Floating-point geometry (`computeBox`, `centerMesh`, `scaleMesh`, normals, `centroid`, `quantizeGeometry`): points are an opaque type here.
- `findValenceHistogram`, `colorTriangles`, `colorVertices`, `colorCorners`: debugging output and marker colouring over the helpers modelled elsewhere.
- `triangleExpandOperation` (geomUtils/inc/mesh.h:1415-1429): a UI driver that calls `expandVertex` with points computed in floating point.
- `setGTable`, `setOTable`, `populateAuxMembers`, `setColorMap`: whole-table assignments done while loading a mesh; the model builds states directly.
- `Mesh::swap` and the copy constructor: `swap` does not compile (it names `m_vn` and returns nothing); the copy constructor only copies fields.
- Observer registration (`registerFor...`, `unregisterFor...`): the `std::function` callbacks become the ordered logs `tMoves` and `vMoves`; arbitrary callbacks are not modelled.
- `callAfter`: it detaches a thread.
- Swing loops: the source loops forever around a fan that never closes. The model stops after `MAX_VALENCE` steps and reports such a fan as unbounded (`MeshChecks`).
- MeshEdits.CornerOf: `c(t, v)` compares an iterator with the member-function name `endNextIterator` (geomUtils/inc/mesh.h:234, geomUtils/src/mesh.cpp:177), which does not compile. The model implements the evident intent: the corner of `t` naming `v`, or -1.
- `BoundedCardinalitySet`'s constructor uses the undeclared `minSize` (utils/inc/boundedCardinalitySet.h:34). The model uses one class for both bounded sets, starting empty.
- The `inc/utils/collectionHelpers.h` copy of `cyclicallyPermute` does not compile. The `utils/inc/helpers.h` loop is modelled, and its documented intent is `Helpers.RotateLeft`.
- ColorMaps.ColorMap.At: `operator[]` takes an `unsigned char`, so an index of 256 or more would wrap. The model asks for an index inside the map instead.
- Fixed-width integers: vector sizes, counters and handles are unbounded integers. The byte arithmetic of colours is written out explicitly.
- MeshExpand.ExpandVertex: the two addTriangle calls are read as corrected (appended at nc), as in MeshEdits.AddTriangle. On a mesh with a stale tail left by removeTriangle or collapseEdge, the source appends after the tail while its five setOpposites calls use `offsetCorner = m_nc`, so they link the stale slots, which come back to life with stale vertices. The model does not reproduce that; MeshExpand.ExpandVertexAgrees shows that both readings agree when there is no stale tail.
- MeshChecks.CheckOConsistency: models the build with asserts compiled out, where every inconsistent corner is printed; a debug build aborts at the first one. The requires `Bounded` excludes an opposite of nc or more, which the first assert rejects. For a boundary corner the source evaluates o(-1), a read outside the opposite table; the model reports that corner instead.
- Meshes.Mesh.constructor: the source leaves `m_nv`, `m_nt` and `m_nc` uninitialised; the model starts them at 0.
- Curves.Curve.Tuck, Curves.Curve.Refine, Curves.Curve.Dual: point arithmetic is a parameter (midpoint and shift functions). The model states which points each new point is computed from, not the floating-point values.
- Update in place of `std::vector` storage: the class fields are Dafny sequences that the methods reassign, so capacity and iterator invalidation are not modelled.

## Findings

| source | as written | input that shows it | evidently intended | confidence | as-written member | corrected member |
|---|---|---|---|---|---|---|
| geomUtils/inc/mesh.h:1298-1307 | `addTriangle` appends with `push_back` after the whole vertex table, but `removeTriangle` never shrinks the table | a two-triangle mesh, remove triangle 1, then add (7, 8, 9): corner 3 still names the stale vertex 0 | the new triangle's corners nc, nc + 1, nc + 2 name v1, v2, v3 | not executed | MeshEdits.AddAfterRemoveIsStale | MeshEdits.AddTriangle |
| utils/inc/helpers.h:46 | `populateReverseMap` asserts `inputMapElement <= sizeOutputMap` before writing `outputMap[inputMapElement]` | an input element equal to `sizeOutputMap` passes the assertion and writes one past the end | `0 <= inputMapElement < sizeOutputMap` | not executed | Helpers.ReverseGuardTooWeak | Helpers.PopulateReverseMap |
| utils/inc/helpers.h:56-79 | `cyclicallyPermute` follows one cycle of `nextIndex - k` for `size` steps | size 4, shift 2: [a, b, c, d] becomes [a, b, a, d] | the left rotation [c, d, a, b], for every shift | not executed | Helpers.PermuteNotRotation | Helpers.RotateLeft |
| geomUtils/inc/mesh.h:61 | `addColor` answers the new size of the map, which `getIndexForColor` passes on as an index | asking for a colour not in the map answers one past its last index | the index of the appended colour, size - 1 | not executed | ColorMaps.NewColorIndexOutOfRange | ColorMaps.IndexForColor |
| utils/inc/helpers.h:47-49 | `populateReverseMap` tests whether a cell is still unwritten by comparing it with `defaultOutputValue` | with default 0, input [5, 5]: position 0 writes 0, which looks unwritten, so position 1 overwrites it and 5 maps to 1 | every value maps to its first position, whatever the default | not executed | Helpers.ReverseMapDefaultClash | Helpers.PopulateReverseMapFirst |
