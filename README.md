# GPCJS clipper core in Dafny

A model of the discrete core of GPCJS, a JavaScript port of Alan Murta's
General Polygon Clipper. GPC computes the intersection (INT), difference
(DIFF), exclusive-or (XOR) and union of two polygons with a Vatti sweep. The
model covers the decision logic and the bookkeeping of that sweep, the
result finalisation, and the `PolyDefault` result container. The
floating-point geometry is not part of the model.

Modules, one per component:

- `Common` (common.dfy): points with exact real coordinates, the two polygon
  types (`Clip.CLIP`, `Clip.SUBJ`), and the per-type pairs `Pair<T>`, such as `horiz`,
  `bundle[ABOVE]`, `bside` and `parity`.
- `Classify` (classify.dfy): the quadrant and `contributing` formulas
  `Clip.clip` uses at a scan-beam boundary (INT/DIFF, XOR, UNION) and at an
  edge crossing.
  - Each formula is proved equal to a reference definition. The reference
    gives each input polygon's occupancy of the four quadrants, combined by
    the operation's set rule.
  - Further lemmas: UNION is the complement of INT with both parities
    inverted; a non-contributing XOR/INT/UNION edge has a uniform vertex
    class.
- `Polygons` (polygons.dfy): the `PolyDefault` class. It has the hole flag
  and the list of inner polygons, and its mutators and queries.
- `Edges` (edges.dfy): the edge record (`EdgeNode`) and one specification
  function per pass over the active edge table (AET):
  - bundling;
  - the classification scan;
  - deletion of terminating edges;
  - the crossing swap;
  - preparation of the next beam.

  The lemmas about these functions state what each pass does and what it
  leaves unchanged.
- `Sweep` (sweep.dfy): the class `ActiveEdgeTable`. It holds an arena of
  edge records and the AET as a sequence of edge ids (the order of the
  `next` links). Each pass is a method with the loop the JavaScript has,
  proved against its specification function.
- `Output` (output.dfy): `TopPolygonNode.count_contours` and `getResult`
  over the list of output contours, with the stable "holes last" partition.
- `Clipping` (clip.dfy): the trivial-result guards and the starting
  parities of `Clip.clip`.

Behaviour the model keeps as the code has it:

- `PolyDefault` reports its error conditions with `alert(...)`, which shows
  a message and returns. The methods therefore go on with the update after
  the alert.
  - The documentation comments in the source call these conditions
    exceptions. The model follows the code.
  - Each such method returns an `alerted` flag and still makes the update.
- With exactly one surviving contour, `getResult` sets the hole flag on the
  result polygon itself. The sorting step then copies the inner polygons
  into a fresh polygon, so that flag is not returned. `ResultList` and
  `GetResult` state this outcome.
- The tolerance test `Clip.EQ` is a parameter `eq` of the bundling pass.
- The horizontal-state table `HState.next_h_state` is a parameter `nextH`
  of the classification scan.

## Model

| member | source | states |
|---|---|---|
| Common.Pair.Set | gpc/gpc.js:348-360 | the per-type update of a two-element array (the scan's `horiz[t]`, and the bundle sides and bits) sets that entry and leaves the other polygon's entry unchanged |
| Classify.IntBoundary | gpc/gpc.js:258-289 | the INT/DIFF boundary quadrants are the conjunction of the two polygons' occupancies; `br` is the conjunction of the parities |
| Classify.XorBoundary | gpc/gpc.js:290-307 | the XOR boundary quadrants are the exclusive-or of the two occupancies, and the edge contributes exactly when some `exists` code is non-zero |
| Classify.UnionBoundary | gpc/gpc.js:308-339 | the UNION boundary quadrants are the disjunction of the two occupancies |
| Classify.BoundaryClass | gpc/gpc.js:252-340 | the per-operation dispatch gives the operation's set rule over the occupancies, and for XOR contribution iff an edge exists |
| Classify.UnionIsComplementOfIntersection | gpc/gpc.js:258-339 | the UNION classification equals the INT classification with both parities inverted, quadrants complemented |
| Classify.NonContributingIsUniform | gpc/gpc.js:252-340 | an existing edge that does not contribute has all four quadrants on the same side of the result |
| Classify.CrossClass | gpc/gpc.js:522-616 | the crossing quadrants are the operation's set rule over the occupancies derived from `in_clip`/`in_subj` and the edges' bundle bits |
| Classify.CrossedSides | gpc/gpc.js:693-701 | after a crossing, each edge's bundle side for a polygon toggles exactly when the other edge carries that polygon |
| Classify.CrossingKeepsSideParity | gpc/gpc.js:693-701 | if the bundle sides held the parity left of each edge before the crossing, the flips make them hold it in the swapped order: the second edge, now first, gets the first edge's old side |
| Polygons.AddPointTo | gpc/geometry/PolyDefault.js:112-119 | on an empty list a single simple polygon holding the point is created; otherwise the count is unchanged and only inner polygon 0 changes |
| Polygons.PointsIntoEmpty | gpc/geometry/PolyDefault.js:112-119 | adding the points of a non-empty contour to an empty polygon gives one simple contributing inner polygon holding them in order |
| Polygons.SetContributingOf | gpc/geometry/PolyDefault.js:254-260 | the simple polygon reached through inner polygon 0 takes the flag and keeps its points; an alert is raised exactly when a nested polygon on the way does not have exactly one inner polygon |
| Polygons.PolyDefault.constructor | gpc/geometry/PolyDefault.js:25-31 | a new polygon is empty and its hole flag is the argument |
| Polygons.PolyDefault.Clear | gpc/geometry/PolyDefault.js:63-65 | the list becomes empty, the hole flag is kept |
| Polygons.PolyDefault.AddPoint | gpc/geometry/PolyDefault.js:112-119 | the list becomes `AddPointTo` of the old list, hole flag kept |
| Polygons.PolyDefault.AddPoly | gpc/geometry/PolyDefault.js:128-136 | appends `p` after the unchanged earlier polygons; alerts exactly when the polygon is a hole with inner polygons |
| Polygons.PolyDefault.IsEmpty | gpc/geometry/PolyDefault.js:140-142 | true exactly when there are no inner polygons |
| Polygons.PolyDefault.GetNumInnerPoly | gpc/geometry/PolyDefault.js:167-170 | the number of inner polygons |
| Polygons.PolyDefault.GetInnerPoly | gpc/geometry/PolyDefault.js:161-163 | the inner polygon at the index |
| Polygons.PolyDefault.IsHole | gpc/geometry/PolyDefault.js:216-224 | answers the hole flag; alerts exactly when there is more than one inner polygon |
| Polygons.PolyDefault.SetIsHole | gpc/geometry/PolyDefault.js:231-237 | sets the hole flag, list unchanged; alerts exactly when there is more than one inner polygon |
| Polygons.PolyDefault.SetContributing | gpc/geometry/PolyDefault.js:254-260 | replaces only inner polygon `i`, whose leaf takes the flag with its points kept; alerts exactly when the count is not one or a nested polygon on the way alerts |
| Polygons.PolyDefault.Equals | gpc/geometry/PolyDefault.js:36-46 | true exactly for a non-null polygon with the same hole flag and inner polygons; reflexive |
| Polygons.HoleFlagRoundTrip | gpc/geometry/PolyDefault.js:216-237 | `setIsHole(b)` then `isHole()` answers `b`, alerting only with more than one inner polygon |
| Polygons.ClearThenIsEmpty | gpc/geometry/PolyDefault.js:63-65 | after `clear()` the polygon is empty |
| Edges.BundleFrame | gpc/gpc.js:186-226 | bundling changes only the ABOVE bundle bits and bundle states, and only of AET edges |
| Edges.BundledArena | gpc/gpc.js:186-226 | bundling keeps the edge arena and the AET well formed |
| Edges.BundleFlags | gpc/gpc.js:190-226 | an edge that is not live above `yb` has no ABOVE bits and is unbundled; a live unbundled edge has exactly its own type's bit; a tail has no bits |
| Edges.TailsReachHead | gpc/gpc.js:209-222 | every `BUNDLE_TAIL` is followed, past tails and terminating edges only, by the `BUNDLE_HEAD` of its bundle |
| Edges.BundleParity | gpc/gpc.js:195-226 | the parity of the ABOVE bits over the bundled prefix equals the parity of the live edges of each type |
| Edges.BundledParity | gpc/gpc.js:186-226 | over the whole AET, the ABOVE-bit parity after bundling is the parity of the live edges of each type |
| Edges.ScanPassFrame | gpc/gpc.js:228-360 | the classification scan changes no edge field but `bside` |
| Edges.ScanPassValid | gpc/gpc.js:228-360 | the classification scan keeps the arena and the AET well formed |
| Edges.ScanPassClasses | gpc/gpc.js:236-340 | the class of the edge at each position is its boundary classification under the parity and `horiz` state reached before it |
| Edges.ScanPassSides | gpc/gpc.js:247-250 | an edge with a non-zero `exists` code gets the parity reached before it as its bundle side; other edges keep theirs |
| Edges.ScanParity | gpc/gpc.js:345-346 | each parity after `k` edges is the start parity toggled by the parity of those edges' ABOVE bits of that type |
| Edges.BoundaryParity | gpc/gpc.js:186-346 | after bundling and a full scan, each parity is the start parity toggled by the number of live edges of that type |
| Edges.HandOff | gpc/gpc.js:470-483 | removing a terminating edge changes the records exactly when it is a BELOW head after a kept BELOW tail; that tail then takes its `outp[BELOW]` and becomes head, or unbundled when no tail precedes it |
| Edges.DeleteHandsOff | gpc/gpc.js:458-490 | over the whole deletion pass, the tail before a removed BELOW head ends with the head's `outp[BELOW]` and its new state |
| Edges.DeleteKeepsSettled | gpc/gpc.js:458-490 | a kept edge is not changed again by the rest of the pass unless it is the last kept edge and still a BELOW tail |
| Edges.LiveIdsDistinct | gpc/gpc.js:458-490 | the edges kept by deletion are distinct and all come from the old AET |
| Edges.DeleteResult | gpc/gpc.js:458-490 | the new AET is the old order with exactly the edges ending at `yb` removed, and only `xt`, `outp[BELOW]` and `bstate[BELOW]` change |
| Edges.DeleteKeepsXt | gpc/gpc.js:485-488 | edges outside the AET keep their `xt` |
| Edges.DeleteSetsXt | gpc/gpc.js:485-488 | every edge that stays gets its `xt` at the beam top |
| Edges.WalkBack | gpc/gpc.js:709-721 | walking back stops at the first edge before a run of tails that is not itself a tail, or at the front |
| Edges.BlockStart | gpc/gpc.js:704-723 | the start of the bundle that ends at edge `i`: `i` itself unless it is a head, else the first of the tails before it |
| Edges.SwapBlocksPermutes | gpc/gpc.js:703-734 | the swap is a permutation of the AET that keeps everything before the bundle and after `e1`, puts `e0` where `e1` was, and keeps the ids distinct |
| Edges.PrepareOrder | gpc/gpc.js:740-769 | the new AET is the old order with each edge replaced by its successor where it ends at `yt`, and only `xb`, the outputs and the BELOW state change |
| Edges.PrepareTouches | gpc/gpc.js:740-769 | edges that are neither in the AET nor successors of AET edges are unchanged |
| Edges.PrepareRolls | gpc/gpc.js:743-766 | the edge left at each position carries the old ABOVE output, state and bundle bits as its BELOW ones, and a kept edge's `xb` becomes its `xt` |
| Edges.PrepareClearsAbove | gpc/gpc.js:740-769 | with fresh successors, every edge of the new AET has no ABOVE output and the ids stay distinct |
| Sweep.ActiveEdgeTable.BundleEdges | gpc/gpc.js:186-226 | the in-place bundling pass yields the bundled edges, AET order unchanged, with the ABOVE-bit parity equal to the live-edge parity |
| Sweep.ActiveEdgeTable.ClassifyBoundary | gpc/gpc.js:228-360 | the in-place scan yields the scan's classes, bundle sides and final parity |
| Sweep.ActiveEdgeTable.Boundary | gpc/gpc.js:186-360 | the records and classes are the classification scan over the bundled edges, the class of each edge is its boundary class under the parity before it, and the parity leaving the boundary is the start parity toggled by the live-edge counts |
| Sweep.ActiveEdgeTable.DeleteTerminating | gpc/gpc.js:458-490 | the in-place deletion leaves the live edges in order, with `xt` set for each |
| Sweep.ActiveEdgeTable.Cross | gpc/gpc.js:509-734 | a crossing is classified iff both edges carry bundle bits; the bundle sides flip and keep recording the parity to their left; the bundles swap in the AET |
| Sweep.ActiveEdgeTable.PrepareNextBeam | gpc/gpc.js:740-769 | the in-place pass yields the prepared edges and the successor-replaced AET, rolling ABOVE state into BELOW at every position |
| Output.Counted | gpc/gpc.js:781-810 | each node keeps all its fields but `active`, which becomes the vertex count of a surviving contour and 0 otherwise |
| Output.Survivors | gpc/gpc.js:781-810 | the surviving contours are at most as many as the nodes and each has more than two vertices |
| Output.PartitionCounts | gpc/gpc.js:854-869 | the non-holes and the holes of a list together are a permutation of it |
| Output.HolesLastIsStablePartition | gpc/gpc.js:854-869 | the sorted list is a permutation with every non-hole before every hole, relative order kept in each group |
| Output.FirstPassExports | gpc/gpc.js:819-852 | the first pass of `getResult` exports every surviving contour in node order with its vertices in `v[LEFT]` order |
| Output.ResultIsProper | gpc/gpc.js:812-870 | `getResult` returns one inner polygon per survivor, each with more than two vertices |
| Output.ResultOrder | gpc/gpc.js:854-869 | with several survivors, the non-holes of the result are the non-hole contours in node order, then the holes likewise |
| Output.TopPolygonNode.CountContours | gpc/gpc.js:781-810 | the nodes become `Counted` and the count is the number of contours with more than two vertices |
| Output.TopPolygonNode.GetResult | gpc/gpc.js:812-870 | the result is a fresh non-hole polygon holding the sorted exports, empty when nothing survives |
| Output.ExportContour | gpc/gpc.js:829-840 | the hole flag is set when the contour is a hole, and the contour's points are added in chain order |
| Output.SortHolesLast | gpc/gpc.js:854-869 | the two copying loops give a fresh non-hole polygon holding `HolesLast` of the inner polygons |
| Clipping.TrivialEmpty | gpc/gpc.js:78-85 | the guard holds exactly when no point can belong to the result of the operation on inputs of that emptiness |
| Clipping.InitialParity | gpc/gpc.js:130-137 | both parities start LEFT, except the clip parity for DIFF, which starts RIGHT |
| Clipping.InitialParityInverts | gpc/gpc.js:130-137 | the DIFF start parity inverts the clip polygon, so the INT rule over the parities is set difference |
| Clipping.ClipStart | gpc/gpc.js:74-137 | the clip returns an empty non-hole result in the trivial cases and when the local minimum table is empty; otherwise the sweep starts from `InitialParity` |

## Left out

- Floating point: coordinates are exact reals. The `xt` interpolation is an exact real expression, and `Clip.EQ` is a parameter.
- `build_lmt`, `add_edge_to_aet`, `minimax_test`, `build_sbt`, the intersection table (`build_intersection_table`), and the scan-beam loop that drives the passes: their helpers are not part of this model. Whether the local minimum table is empty is a parameter of `ClipStart`.
- The output builder reached from the `switch (vclass)` statements (`add_local_min`, `merge_left`, `merge_right`, `add_left`, `add_right`, `VertexType.getType`): not part of this model. The passes return the classification that would select the case, and the output contours are an abstract id (`outp`).
- The writes the `switch (vclass)` statements make to edge fields are not modelled: `outp[ABOVE]` and `outp[BELOW]` at the boundary (gpc.js:362-446) and at a crossing (gpc.js:617-690), and `px` and `cf`. So the frames of `Edges.ScanPassFrame` and `Sweep.ActiveEdgeTable.Cross`, where only `bside` changes, hold of the model only. After a contributing crossing the program's edges carry new `outp[ABOVE]` contours, which `PrepareNextBeam` then rolls into `outp[BELOW]`.
- Polygons.PolyDefault.Equals: `equals` from util/index.js is not part of this model. It is assumed to compare the two inner-polygon lists element by element, by value. The model's "true for the same flag and inner polygons" direction and its reflexivity depend on that assumption. The "false when the hole flags differ" direction follows from PolyDefault.js alone.
- `HState.next_h_state`: not part of this model; the table is a parameter `nextH`.
- Debug printing (`out_poly.print()`, `lmt_table.print()`) and the module wiring: no effect on the result.
- `Clip.createNewPoly(polyClass)`: modelled as the `PolyDefault` constructor.
- `PolyDefault` methods `getArea`, `toString`, `hashCode`, `getBounds`, `isPointInside`, `getX`, `getY`, `getNumPoints`, `getPoint(s)`, `isContributing`, the `add` overload dispatch and the `intersection`/`union`/`xor`/`difference` wrappers: outside the clipper's bookkeeping, or delegated to `PolySimple`, which is not part of this model.
- gpc/geometry/PolySimple.js is not part of this model. Its assumed behaviour: a fresh one is empty and contributing, `addPoint` appends, `setContributing(0, c)` sets the flag, and `isHole()` is false.
- main.js: the browser user interface.
- The `prev`/`next` pointers and `aet.top_node`: the AET is a sequence, so relinking and head-pointer updates are the new order of the sequence and are not modelled separately.
- Sweep.ActiveEdgeTable.BundleEdges: requires a non-empty AET, because the JavaScript dereferences `aet.top_node` without a test.
- Sweep.ActiveEdgeTable.Cross: the crossing edges are given as AET positions `i < j`. When `e0` is a bundle head it must not be first in the AET; otherwise the JavaScript's walk back would dereference a missing edge.
- Sweep.ActiveEdgeTable.PrepareNextBeam: the per-position roll and the AET's distinctness are proved only when no successor is also in the AET or shared with another edge (`PrepareSafe`). The structure built by `build_lmt` provides this, and that builder is not part of this model.
- Edges.PrepareClearsAbove: the JavaScript clears `outp[ABOVE]` of the edge it visits, not of the successor that replaces it. So "every AET edge has no ABOVE output" is proved under the premise that successors come fresh.
- Polygons.PolyDefault.AddPoly: inner polygons are stored by value. The JavaScript stores a reference, so a later change to an added polygon would show in the container; that sharing is not modelled.
- Polygons.PolyDefault.GetInnerPoly: requires an index inside the list. The JavaScript answers whatever `ArrayList.get` answers for an index outside it, and that file is not part of this model.
- Polygons.PolyDefault.SetContributing: requires an index inside the list, and that every nested polygon on the way to the leaf has an inner polygon. Otherwise the JavaScript calls `setContributing` on a missing element and throws a TypeError, which the model does not represent.
