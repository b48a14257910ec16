# brunnels decision core in Dafny

brunnels finds the bridges and tunnels ("brunnels") along a GPX route from OpenStreetMap ways.
This project models the program's decision logic and proves properties of it. Geometry is
outside the model, so the Shapely, pyproj, geopy and trigonometry results become inputs:
- distances come from a distance function that is never negative;
- projections onto segments and the distance of each brunnel point along the route are given;
- containment and alignment tests are given as booleans.

The model covers:
- **Way chains:** shared-node detection (`merge.py`) and both generations of the directional
  coordinate combiner. The combiner finds the one connection between neighbouring ways,
  validates internal ways, picks a direction per way and glues the polylines.
- **Tag rules:** `determine_type`, `should_filter` and `from_overpass_data` of the
  `brunnels` package, and the current generation's tunnel rule.
- **Compound brunnels:**
  - adjacent grouping, partition and metadata in the package and root generations (ids joined
    with `;`, first-wins tag merge with conflict lists, total length, primary name);
  - the breadth-first connected components of `find_compound_brunnels` in the current
    generation.
- **Route spans and decisions:**
  - closed-interval overlap;
  - span calculation;
  - the filter-reason transitions of the containment search;
  - misalignment filtering;
  - overlap grouping, where the nearest member of each transitive group is kept.
- **Route checks and geometry helpers:**
  - the pole and antimeridian check and the bounding box;
  - cumulative distances and the lowest-index closest segment;
  - the clamped projection parameter and the distance-to-index walk;
  - `bearings_aligned`.
- **Metrics and output names:** `collect_metrics`, and the search for a free output file name
  in both generations. The file system is a set of existing paths plus paths that the OS
  refuses.

The repository holds three generations of code: the root scripts, the `brunnels` package and
`src/brunnels`. Each modelled file has its own module (`Src…` for `src/brunnels`, `Pkg…` for
`brunnels`, `Root…` or no prefix for the root scripts). Logic that is word for word the same in
two files is defined once in a shared module: `WayChain`, `AdjacentGrouping`, `CompoundCore`,
`OverlapGrouping`, `LinearRef`, `Intervals` and `OutputNames`.

Modelling choices:
- A dictionary of brunnels is a sequence in insertion order.
- Object references between brunnels, such as a compound group, are positions in that sequence.
- Python exceptions are values of a `Result`.

## Model

| member | source | states |
|---|---|---|
| Merge.DetectSharedNode | merge.py:13-54 | None exactly when a way has fewer than two nodes or no endpoint of one way is an endpoint of the other; otherwise the returned orientations make the first way end where the second begins, and an earlier pattern (last-first, last-last, first-first, first-last) always wins over a later one |
| WayChain.FindConnection | src/brunnels/coordinate_combiner.py:78-124 | a connection exists exactly when the two node lists share one single node and it is an endpoint of both; the reported ends hold that node, and the first end is reported when the node is at both |
| WayChain.Connections | src/brunnels/coordinate_combiner.py:63-73 | the connection list exists exactly when every consecutive pair connects, and holds one connection per pair in order |
| WayChain.Analyze | src/brunnels/coordinate_combiner.py:55-163 | fewer than two ways need no connections; otherwise construction succeeds exactly when every consecutive pair joins at one shared endpoint and every internal way meets its two neighbours at different ends, and every failure is a ValueError |
| WayChain.ChainableByConnections | src/brunnels/coordinate_combiner.py:142-163 | once every pair connects, validation passes exactly when no internal way uses the same end for both neighbours |
| WayChain.AnalyzeTwo | src/brunnels/coordinate_combiner.py:63-76 | two joined ways give exactly their one connection; there is no internal way to check |
| WayChain.NextDirection | src/brunnels/coordinate_combiner.py:223-251 | the next way is forward exactly when the previous way's effective joining end (flipped when it is reversed) differs from the next way's joining end |
| WayChain.Propagate | src/brunnels/coordinate_combiner.py:223-262 | one direction per way, the first given, each later one derived from its predecessor and their connection |
| WayChain.PropagateLeavesAtJoins | src/brunnels/coordinate_combiner.py:218-251 | if the first way is left through its joining node, every oriented way is left through the node it shares with the next way |
| WayChain.JoinsMeet | src/brunnels/coordinate_combiner.py:223-251 | under such directions each oriented way ends at the shared node and the next oriented way starts at it |
| WayChain.GlueLength | src/brunnels/coordinate_combiner.py:183-195 | keeping the first list whole and dropping each later list's first element yields the total length minus one per later list |
| WayChain.GlueAppend | src/brunnels/coordinate_combiner.py:190-195 | each later list is appended without its first element |
| SrcCoordinateCombiner.InitialDirection | src/brunnels/coordinate_combiner.py:218-221 | the first way is reversed exactly when it joins the second way at its first node, so its effective joining end is always the last one |
| SrcCoordinateCombiner.DetermineDirections | src/brunnels/coordinate_combiner.py:199-262 | one direction per way; the first way is left through its joining end and every later direction follows from the previous one |
| SrcCoordinateCombiner.CombineCoordinates | src/brunnels/coordinate_combiner.py:165-197 | succeeds exactly when the ways satisfy the adjacency assumptions, fails only with ValueError, gives [] for no ways and the way's own coordinates for one |
| SrcCoordinateCombiner.CombineShape | src/brunnels/coordinate_combiner.py:183-195 | the polyline is every way oriented by its direction, the first kept whole and each later one without its first point |
| SrcCoordinateCombiner.WaysMeet | src/brunnels/coordinate_combiner.py:199-262 | every oriented way starts at the node where the previous oriented way ends |
| SrcCoordinateCombiner.PointsMeet | src/brunnels/coordinate_combiner.py:183-195 | when coordinates follow node ids, each dropped first point repeats the last point already emitted, so the polyline is continuous |
| SrcCoordinateCombiner.CombineLength | src/brunnels/coordinate_combiner.py:183-195 | the polyline has the sum of the ways' lengths minus one point per later way |
| SrcCoordinateCombiner.BackwardForwardExample | tests/test_coordinate_combiner.py:127-134 | ways [20,10] then [20,30] combine to p1, p2, p3 |
| PkgCoordinateCombiner.DetermineDirections | brunnels/coordinate_combiner.py:199-239 | the first way is always forward and every later direction follows from the previous one |
| PkgCoordinateCombiner.CombineCoordinates | brunnels/coordinate_combiner.py:165-197 | succeeds exactly when the adjacency assumptions hold, fails only with ValueError, [] for no ways, the way's coordinates for one |
| PkgCoordinateCombiner.AgreesWhenFirstWayEndsAtJoin | brunnels/coordinate_combiner.py:206 | when the first way joins at its last node, the package and the current generation produce the same polyline |
| PkgCoordinateCombiner.BackwardForwardBreaksChain | brunnels/coordinate_combiner.py:206 | for ways [20,10] then [20,30] the result is p2, p1, p2 and the oriented ways do not meet |
| WayModel.MakeRouteSpan | brunnels/brunnel.py:56-66 | the span keeps the given start and end, and its length is always end minus start whatever length was passed |
| WayModel.SharesNode | brunnels/brunnel_way.py:65-75 | true exactly when some node id is in both lists, hence false when either list is empty |
| WayModel.SharesNodeSymmetric | brunnels/brunnel_way.py:65-75 | node sharing does not depend on the order of the two lists |
| WayModel.SpansOverlap | brunnels/geometry_utils.py:31-45 | for spans that start no later than they end, overlapping means that some route distance lies on both closed spans |
| WayModel.SpansOverlapSymmetric | brunnels/geometry_utils.py:42-45 | overlap does not depend on the order of the two spans |
| WayModel.TouchingSpansOverlap | brunnels/geometry_utils.py:43-44 | spans that only meet at an end point overlap |
| WayModel.SpanOverlapsItself | brunnels/geometry_utils.py:42-45 | a span with start no later than end overlaps itself |
| WayModel.SeparateSpansDoNotOverlap | brunnels/geometry_utils.py:42-45 | spans with a gap between them overlap in neither order |
| Intervals.OverlapIffCommonPoint | src/brunnels/brunnel.py:129-145 | the closed-interval test used for spans holds exactly when the two spans share a point |
| Intervals.OverlapSymmetric | src/brunnels/brunnel.py:142-145 | the closed-interval test is symmetric |
| PkgBrunnelWay.GetId | brunnels/brunnel_way.py:41-43 | the id text is never empty and never holds the ';' that separates compound ids |
| PkgBrunnelWay.SharesNodeWith | brunnels/brunnel_way.py:55-75 | true exactly when the two ways' node lists have a node in common |
| PkgBrunnelWay.SharesNodeWithSymmetric | brunnels/brunnel_way.py:55-75 | node sharing between two ways is symmetric |
| PkgBrunnelWay.DetermineType | brunnels/brunnel_way.py:186-203 | a tunnel exactly when a tunnel tag is present whose value is neither "no" nor "false", so bridge and tunnel tags together give a tunnel |
| PkgBrunnelWay.ShouldFilter | brunnels/brunnel_way.py:206-250 | each reason's exact condition in priority order: a closed way is a polygon unless polygons are kept; then a bicycle tag decides alone; then a cycleway is kept; then a waterway tag excludes; then a railway tag other than "abandoned" excludes; nothing else is excluded |
| PkgBrunnelWay.KeepPolygonsOnlyMattersForClosedWays | brunnels/brunnel_way.py:220-224 | keep_polygons changes the verdict only for closed ways, which are otherwise always polygons |
| PkgBrunnelWay.FromOverpassData | brunnels/brunnel_way.py:253-280 | one coordinate per geometry entry; the type is `determine_type` of the tags and the filter reason `should_filter` of the way, so a tunnel exactly under the tunnel-tag rule and a kept way neither a dropped polygon nor bicycle=no; the new way is uncontained without a span |
| PkgBrunnelWay.FromOverpassDataKeepPolygons | brunnels/brunnel_way.py:253-280 | keeping polygons changes the way read only when it is closed, and a closed way read without keeping polygons is a dropped polygon |
| PkgBrunnel.CalculateRouteSpan | brunnels/brunnel.py:138-167 | no coordinates give the zero span at the route start; otherwise start and end are the smallest and largest projected distance, both attained, every distance lies between them and the length is end minus start, never negative |
| PkgBrunnel.IsAlignedWithRoute | brunnels/brunnel.py:169-221 | aligned only with two brunnel coordinates, two route positions and a closest segment pair; then the bearing comparison decides |
| SrcBrunnel.IndexOf | src/brunnels/brunnel.py:87 | `list.index`: found exactly when the element occurs, at its first occurrence |
| SrcBrunnel.IsRepresentative | src/brunnels/brunnel.py:77-87 | a brunnel outside any compound always represents itself; a compound member raises ValueError exactly when it is missing from its group, and otherwise represents it exactly when it heads the group |
| SrcBrunnel.GetId | src/brunnels/brunnel.py:89-96 | a plain brunnel is named by its own id text; a compound member's name splits at ';' back into the id texts of its group members, in group order |
| SrcBrunnel.GetRouteSpan | src/brunnels/brunnel.py:120-127 | a plain brunnel has its own span; a compound member spans from its group's first start to its group's last end, with IndexError for an empty group and AttributeError when either end brunnel has no span |
| SrcBrunnel.OverlapsWith | src/brunnels/brunnel.py:129-145 | false when either brunnel has no span, otherwise the closed-interval test on the two own spans |
| SrcBrunnel.OverlapsWithSymmetric | src/brunnels/brunnel.py:129-145 | overlapping is symmetric |
| SrcBrunnel.OverlapsWithCommonPoint | src/brunnels/brunnel.py:140-145 | for well-formed spans, overlapping means some route distance lies on both spans |
| SrcBrunnel.CalculateRouteSpan | src/brunnels/brunnel.py:294-321 | no coordinates and one coordinate raise their two ValueErrors; from two on the span runs from the least to the greatest projected distance, both attained, with every distance in between |
| SrcBrunnel.FromOverpassData | src/brunnels/brunnel.py:376-401 | one coordinate per geometry node; a tunnel exactly when the tunnel tag is present and neither "no" nor "false"; unfiltered, without span and outside any compound |
| SrcBrunnel.TypeAgreesWithPackage | src/brunnels/brunnel.py:392-395 | this generation's bridge/tunnel rule agrees with the package's `determine_type` on every tag map |
| SrcBrunnel.ReadAgreesWithPackage | src/brunnels/brunnel.py:376-401 | both generations read the same coordinates, way data and type from an Overpass element |
| SrcBrunnel.LinkedSymmetric | src/brunnels/brunnel.py:415-432 | the shared-node relation between unfiltered brunnels is symmetric |
| SrcBrunnel.ActivePositions | src/brunnels/brunnel.py:419-425 | the brunnels taking part are exactly those whose filter reason is NONE |
| SrcBrunnel.FindComponents | src/brunnels/brunnel.py:434-467 | the searches yield disjoint connected components of the shared-node graph that together hold exactly the unfiltered brunnels |
| SrcBrunnel.Members | src/brunnels/brunnel.py:477 | a component's members listed once each |
| SrcBrunnel.StartKeys | src/brunnels/brunnel.py:479-481 | the sort key is the span start, or 0.0 without a span |
| SrcBrunnel.MarkOne | src/brunnels/brunnel.py:470-484 | marking changes nothing but the compound list |
| SrcBrunnel.FindCompoundBrunnels | src/brunnels/brunnel.py:404-484 | only compound lists change; filtered and isolated brunnels are untouched; every unfiltered brunnel that reaches another one records exactly what it reaches, once each, sorted stably by span start; brunnels that reach each other record the same list |
| SrcBrunnel.MarkedAt | src/brunnels/brunnel.py:470-484 | an unfiltered brunnel's component is exactly what it reaches; it is marked with the sorted component when that has other members and kept as it was otherwise |
| Graphs.Bfs | src/brunnels/brunnel.py:443-465 | one breadth-first search collects exactly the vertices the seed reaches, none of them visited before, and marks them visited |
| Graphs.Components | src/brunnels/brunnel.py:434-467 | searches started from every unvisited vertex in order give disjoint connected components covering exactly the vertices |
| Graphs.ComponentFromMember | src/brunnels/brunnel.py:443-467 | in an undirected graph every member of a component reaches exactly that component |
| IndexSort.SortBy | src/brunnels/brunnel.py:479-481 | Python's stable sort by key: a permutation of the input sorted by key, ties kept in input order |
| IndexSort.SortedHead | src/brunnels/brunnel.py:479-481 | the head of a stably sorted group, its representative, has the least span start and, among equal starts, the earliest position |
| IndexSort.SortedUnique | src/brunnels/brunnel.py:479-481 | two stably sorted lists of the same positions are equal |
| AdjacentGrouping.EligibleFrom | brunnels/compound_brunnel_way.py:292-299 | the candidates are exactly the contained, spanned, unfiltered brunnels, in list order |
| AdjacentGrouping.SortByStart | brunnels/compound_brunnel_way.py:304-305 | the candidates in route order: a permutation ordered by span start, ties in list order |
| AdjacentGrouping.OfType | brunnels/compound_brunnel_way.py:307-313 | the candidates of one type, keeping route order |
| AdjacentGrouping.GroupsOfFacts | brunnels/compound_brunnel_way.py:318-343 | the runs cut from one type's list are sound groups of that type and every linked consecutive pair lies in one of them |
| AdjacentGrouping.DetectAdjacentGroups | brunnels/compound_brunnel_way.py:281-345 | every group has at least two eligible brunnels of one type, each the route-order successor of the previous one and sharing a node with it, no brunnel in two groups; every such successor pair that shares a node lies in one group |
| AdjacentGrouping.GroupsNeedTwoEligible | brunnels/compound_brunnel_way.py:301-302 | a group is only found when at least two brunnels are eligible |
| AdjacentGrouping.DetectAdjacentGroupsInRouteOrder | brunnels/compound_brunnel_way.py:303-345 | the groups of one type are listed in route order: every member of an earlier group comes before every member of a later group of that type |
| AdjacentGrouping.DetectAdjacentGroupsFirstType | brunnels/compound_brunnel_way.py:303-318 | the groups of the type of the first eligible brunnel in route order come before those of the other type |
| CompoundCore.NewCompound | brunnels/compound_brunnel_way.py:49-67 | the constructor succeeds exactly for a non-empty list of one type (and, where checked, all unfiltered), with the first component's type; each refusal is its ValueError |
| CompoundCore.CombinedId | brunnels/compound_brunnel_way.py:162-165 | the compound id splits at ';' back into the component ids, in order |
| CompoundCore.TotalLength | brunnels/compound_brunnel_way.py:142-166 | a single component adds its span length, or nothing without a span; with TotalLengthAppend this makes the total the sum over the components; 0 without spans, non-negative when every span length is |
| CompoundCore.TotalLengthAppend | brunnels/compound_brunnel_way.py:144-159 | the total over a list is the sum of the totals of any split of it |
| CompoundCore.PrimaryName | brunnels/compound_brunnel_way.py:172-183 | "unnamed" when no component has a non-empty name, otherwise the name of the first one that has |
| CompoundCore.NaiveCombine | brunnels/compound_brunnel_way.py:99-113 | the naive loop yields the first component's points then each later component's points after its first |
| CompoundCore.NaiveMatchesDirectional | brunnels/compound_brunnel_way.py:87-113 | when each way ends where the next begins, the directional combiner succeeds and gives the naive result |
| CompoundCore.CompoundSpanBounds | brunnels/compound_brunnel_way.py:390-401 | the compound span exists exactly when a component has a span; it covers every component span, its ends are attained by components, and its length is end minus start |
| CompoundCore.Remaining | brunnels/compound_brunnel_way.py:423-426 | the trailing brunnels are exactly those not placed, each a single brunnel |
| CompoundCore.RemainingInOrder | brunnels/compound_brunnel_way.py:423-426 | the trailing brunnels keep list order: single brunnels by increasing index |
| CompoundCore.RemainingNoDup | brunnels/compound_brunnel_way.py:423-426 | the trailing brunnels are listed once each |
| CompoundCore.CreateWithoutGroups | brunnels/compound_brunnel_way.py:361-363 | with no group the result is the input list, brunnel by brunnel |
| CompoundCore.CreatePartition | brunnels/compound_brunnel_way.py:369-426 | for disjoint groups every input brunnel is placed exactly once, in a compound, a fallback entry or the trailing entries |
| CompoundCore.AttemptSucceeds | brunnels/compound_brunnel_way.py:382-401 | a group of two or more eligible brunnels of one type never reaches the `except` branch and becomes the assembled compound with a span |
| CompoundCore.BuildCombinable | brunnels/compound_brunnel_way.py:375-405 | groups that all combine give one compound each, in group order, and mark exactly their members as placed |
| CompoundCore.DetectedCombinable | brunnels/compound_brunnel_way.py:359-401 | every detected group combines |
| CompoundCore.CreateFromCombinable | brunnels/compound_brunnel_way.py:369-426 | for disjoint combinable groups the result is one compound per group in order, then single brunnels only, by increasing index, with every input index exactly once |
| CompoundCore.CreateFromDetected | brunnels/compound_brunnel_way.py:348-432 | the same shape for the groups the detection finds, trailing single brunnels in list order |
| PkgCompoundBrunnelWay.New | brunnels/compound_brunnel_way.py:35-67 | the package constructor also refuses a filtered component, with its own ValueError, and accepts exactly the non-empty, single-type, all-unfiltered lists |
| PkgCompoundBrunnelWay.CombinedCoordinates | brunnels/compound_brunnel_way.py:80-113 | nothing for no components; one component's own points; on a chain, the polyline of this generation's combiner, whose first way always runs forward; the naive concatenation when the combiner raises |
| PkgCompoundBrunnelWay.CombinedComponentsMeet | brunnels/coordinate_combiner.py:199-231 | when the first way joins the second at its last node, each oriented component starts at the node where the previous one ends |
| PkgCompoundBrunnelWay.CreateFromBrunnels | brunnels/compound_brunnel_way.py:348-432 | the detected groups become compounds in group order followed by every other brunnel in list order, each input brunnel once; with no group the list is returned as it was |
| RootCompoundBrunnelWay.PostInit | compound_brunnel_way.py:37-49 | the older constructor succeeds exactly for a non-empty list of one type, filtered components included |
| RootCompoundBrunnelWay.CombinedCoordinates | compound_brunnel_way.py:58-82 | the first component's points come first; with no empty component the result has the total number of points less one per join |
| RootCompoundBrunnelWay.OrientedCoordinates | compound_brunnel_way.py:70-80 | the intended concatenation: nothing for no components, one component's own points, a chain oriented by the current generation's combiner, otherwise the plain concatenation |
| RootCompoundBrunnelWay.OrientedComponentsMeet | compound_brunnel_way.py:70-80 | on a chain, the oriented ways meet at their shared nodes, whichever way round each is stored |
| RootCompoundBrunnelWay.PackagedAgreesWithOriented | brunnels/compound_brunnel_way.py:80-97 | the package's coordinates equal the oriented concatenation when the first way joins at its last node, and when the ways form no chain |
| RootCompoundBrunnelWay.NaiveAgreesWhenHeadToTail | compound_brunnel_way.py:58-82 | when each way ends where the next begins, the older concatenation equals the oriented one |
| RootCompoundBrunnelWay.ReversedWayRepeatsJoin | compound_brunnel_way.py:77-80 | a second way stored backwards repeats the joint and loses its far end, where the oriented concatenation and the package's combiner keep it |
| RootCompoundBrunnelWay.FirstValue | compound_brunnel_way.py:138-143 | reference: a key's value in the first tag map that has it, absent exactly when no map has the key |
| RootCompoundBrunnelWay.MergeComponentKey | compound_brunnel_way.py:141-150 | merging one more tag map keeps every key's characterisation |
| RootCompoundBrunnelWay.MergeAllCharacterization | compound_brunnel_way.py:137-152 | a key is kept exactly when some component has it, with the first value; it has a conflict list exactly when a later value differs, holding the kept value then each differing value in order |
| RootCompoundBrunnelWay.MergedTagsOfComponents | compound_brunnel_way.py:137-152 | the merged keys are the union of the component keys, each with the value of the first component holding it |
| RootCompoundBrunnelWay.Metadata | compound_brunnel_way.py:95-154 | the id splits back into the component ids, the count is the number of components, the length is the sum of the span lengths (0 without spans), and the tags are merged as characterised |
| RootCompoundBrunnelWay.BrunnelsShareNode | compound_brunnel_way.py:323-344 | false when either node list is empty; otherwise true exactly when some node is in both lists |
| RootCompoundBrunnelWay.BrunnelsShareNodeSymmetric | compound_brunnel_way.py:323-344 | sharing a node is symmetric |
| RootCompoundBrunnelWay.DetectAdjacentBrunnels | compound_brunnel_way.py:256-320 | the same sound and complete grouping as the package's detection, each neighbour pair sharing a node, and only when two brunnels are eligible; groups of one type in route order, those of the type of the first eligible brunnel first |
| RootCompoundBrunnelWay.CreateCompoundBrunnels | compound_brunnel_way.py:347-432 | the detected groups become compounds in group order followed by every other brunnel in list order, each input brunnel once; with no group the list is returned as it was |
| LinearRef.Cumulative | src/brunnels/shapely_utils.py:93-102 | the running totals start at 0 and each adds one segment length |
| LinearRef.CumulativeMonotone | src/brunnels/shapely_utils.py:93-102 | with segment lengths that are not negative the running totals never decrease |
| LinearRef.CumulativeLast | src/brunnels/shapely_utils.py:87-102 | the last running total is the whole line's length |
| LinearRef.RouteDistances | distance_utils.py:41-60 | one distance per route point, 0 at the start, each growing by the distance from the previous point |
| LinearRef.RouteDistancesGrow | distance_utils.py:41-60 | with distances that are not negative the cumulative distances never decrease and end at the total route length |
| LinearRef.FirstMin | distance_utils.py:159-174 | the scan keeps the first index of least value: no later value is smaller and every earlier one is larger |
| LinearRef.FirstMinUnique | distance_utils.py:172-174 | the first least index is the only index with those two properties |
| LinearRef.Interpolate | distance_utils.py:177-178 | a point a fraction in [0, 1] along a segment lies between its ends' route distances |
| LinearRef.ClampUnit | src/brunnels/geometry_utils.py:126 | the clamp lands in [0, 1], keeps values already there and sends values below to 0 and above to 1 |
| LinearRef.Project | src/brunnels/geometry_utils.py:120-126 | a degenerate segment gives t = 0; otherwise t is the raw ratio clamped to [0, 1] |
| LinearRef.ProjectOntoSegment | src/brunnels/geometry_utils.py:104-135 | the reported fraction lies in [0, 1]; a degenerate segment reports its start at fraction 0; otherwise the closest point is the point at the clamped fraction, and the distance in km is that point's distance in metres over 1000 |
| LinearRef.ProjectIsClosest | distance_utils.py:113-123 | on a segment of positive length the clamped fraction is no farther from the point than any other point of the segment |
| LinearRef.WalkFindsFirst | src/brunnels/shapely_utils.py:93-106 | the walk stops at the first segment whose end reaches the distance, or at the last segment |
| DistanceUtils.FindClosestPointOnRoute | distance_utils.py:137-178 | an empty route raises its ValueError, one point answers itself at distance 0; otherwise the first nearest segment wins and the answer lies along it, with IndexError when the distances passed in are too short |
| DistanceUtils.ClosestWithinRoute | distance_utils.py:137-178 | with the route's own cumulative distances the search never fails and answers a distance between the route's start and end |
| RootGeometry.FirstFailure | geometry.py:37-43 | the first coordinate whose route search raises, or none |
| RootGeometry.CalculateBrunnelRouteSpan | geometry.py:16-45 | no coordinates give the span (0, 0, 0); otherwise the first exception escapes, and a computed span runs from the least to the greatest route distance, both attained, with length end minus start |
| RootGeometry.AlongOf | geometry.py:38-40 | a found route point contributes its distance along the route; a failure its exception |
| RootGeometry.Along | geometry.py:37-40 | one route distance or exception per brunnel coordinate |
| RootGeometry.AlongWithinRoute | geometry.py:37-43 | on a real route every coordinate gets a route distance within the route |
| RootGeometry.SpanWithin | geometry.py:30-45 | a span computed from distances within the route lies within it |
| RootGeometry.RouteContainsBrunnel | geometry.py:48-74 | a brunnel is contained exactly when it has two or more coordinates and the buffered route contains its line |
| RootGeometry.EffectiveBuffer | geometry.py:93-98 | the buffer is at least 1 m and a buffer already at least 1 m is kept |
| RootGeometry.BufferDegrees | geometry.py:110-117 | the smaller of the latitude and longitude buffers; a zero cosine raises ZeroDivisionError |
| RootGeometry.BufferIsLatitudeBuffer | geometry.py:113-117 | away from the poles the latitude buffer is the smaller one |
| RootGeometry.ContainOne | geometry.py:123-144 | a tag-filtered brunnel is only marked not contained; an unfiltered one that is not contained becomes NOT_CONTAINED; a contained one gets its span, or no span when that raises |
| RootGeometry.FindContainedBrunnels | geometry.py:77-148 | an empty route changes nothing, a one-point route raises, a zero cosine raises ZeroDivisionError; otherwise every brunnel goes through the loop body, with nothing else changed |
| RootGeometry.ContainedIffUnfiltered | geometry.py:123-144 | after the pass a brunnel is contained exactly when it is unfiltered, which holds exactly when it was unfiltered, has two or more coordinates and lies inside the buffered route; an earlier reason is kept and the only reason the pass sets is NOT_CONTAINED |
| RootGeometry.ContainedGetSpans | geometry.py:127-133 | on a real route every contained brunnel gets a span within the route |
| RootGeometry.FindContainedIdempotent | geometry.py:77-148 | running the pass on its own output changes nothing |
| RootGeometryUtils.CheckBearingAlignment | geometry_utils.py:98-150 | aligned exactly when brunnel and route have two or more points each, closest segments are found and their bearings are aligned |
| RootGeometryUtils.ContainOne | geometry_utils.py:223-255 | a tag-filtered brunnel is only marked not contained; an unfiltered one becomes NOT_CONTAINED, UNALIGNED (not contained, no span), NO_ROUTE_SPAN (not contained, no span) or contained with its span |
| RootGeometryUtils.FindContainedBrunnels | geometry_utils.py:153-263 | a route of fewer than two points changes nothing, a zero cosine raises ZeroDivisionError; otherwise every brunnel goes through the loop body |
| RootGeometryUtils.ContainedIffUnfiltered | geometry_utils.py:223-255 | after the pass a brunnel is contained exactly when it is unfiltered, and then it has a span; an earlier reason is kept and the pass only sets NOT_CONTAINED, UNALIGNED or NO_ROUTE_SPAN |
| RootGeometryUtils.NoEvictionOnRealRoute | geometry_utils.py:229-243 | on a real route the pass never marks a brunnel NO_ROUTE_SPAN, and every contained brunnel's span lies within the route |
| RootGeometryUtils.FindContainedIdempotent | geometry_utils.py:153-263 | running the pass on its own output changes nothing |
| RootGeometryUtils.PointDistances | geometry_utils.py:303-316 | one distance per brunnel coordinate, absent exactly when its route search raised |
| RootGeometryUtils.AverageDistanceToRoute | geometry_utils.py:283-321 | infinite without coordinates or route; finite exactly when the route has points and the closest-point search succeeded for some coordinate, and then the mean of the distances found |
| RootGeometryUtils.AverageToRouteWithinBounds | geometry_utils.py:302-321 | a finite average lies between any lower and upper bound of the distance function |
| RootGeometryUtils.AverageFiniteOnRealRoute | geometry_utils.py:297-321 | on a real route a brunnel with coordinates gets a finite average |
| RootGeometryUtils.CandidateList | geometry_utils.py:336-342 | the candidates are exactly the contained, spanned, unfiltered brunnels, once each |
| RootGeometryUtils.Demote | geometry_utils.py:410-419 | demoted candidates become NOT_NEAREST and not contained; nothing else changes |
| RootGeometryUtils.FilterOverlappingBrunnels | geometry_utils.py:324-428 | only candidates change, and only to NOT_NEAREST and not contained; two candidates joined by overlaps are never both kept, each is joined to a kept one, one strictly nearer than all it is joined to is kept, and none is strictly nearer than a kept one it is joined to, so with tied averages a least-distance candidate survives; containment keeps matching an unfiltered reason |
| RootGeometryUtils.KeptIffNotDemoted | geometry_utils.py:410-419 | a candidate stays unfiltered exactly when it is not demoted |
| OverlapGrouping.LessIsStrictTotalOrder | src/brunnels/route.py:199-200 | the sort key order, infinity last, is a strict total order |
| OverlapGrouping.AverageDistance | src/brunnels/route.py:263-295 | infinite when the route or the computed distances are empty; otherwise the mean of the computed distances |
| OverlapGrouping.AverageWithinRange | src/brunnels/route.py:278-295 | the average lies between the least and the greatest computed distance |
| OverlapGrouping.Nearest | src/brunnels/route.py:199-203 | the member the stable sort puts first: none is nearer, and every earlier member is farther |
| OverlapGrouping.Grow | src/brunnels/route.py:157-175 | one group starts at its seed, lists once each exactly the candidates the seed reaches by overlaps, none processed before, and leaves the processed set closed |
| OverlapGrouping.GrowFinished | src/brunnels/route.py:162-175 | when a pass adds nothing, the group holds everything its seed reaches |
| OverlapGrouping.Groups | src/brunnels/route.py:149-179 | the kept groups have two or more members, are disjoint, each is exactly what its first member reaches, and every candidate that reaches another is in one |
| OverlapGrouping.Losers | src/brunnels/route.py:203-211 | a group loses every member except the nearest |
| OverlapGrouping.Demoted | src/brunnels/route.py:186-211 | the candidates marked NOT_NEAREST are exactly the losers of some group |
| OverlapGrouping.OneSurvivorPerGroup | src/brunnels/route.py:186-211 | every group keeps exactly one member, and a member strictly nearer than the rest is the one kept |
| OverlapGrouping.NoTwoSpared | src/brunnels/route.py:149-211 | two candidates joined by overlaps are never both spared |
| OverlapGrouping.SomeSpared | src/brunnels/route.py:149-211 | every candidate is joined by overlaps to a spared one |
| OverlapGrouping.NearestSpared | src/brunnels/route.py:199-211 | a candidate strictly nearer than everything it is joined to is spared |
| OverlapGrouping.DemoteAllButNearest | src/brunnels/route.py:149-211 | grouping then demotion: only candidates that reach another are demoted, at most one per overlap-connected set is spared, every candidate reaches a spared one, the strictly nearest is spared, and a spared candidate is no farther than any it reaches, ties included |
| OverlapGrouping.SparedIsNearest | src/brunnels/route.py:199-211 | the member the stable sort by distance keeps is no farther than any member of its overlap group, with ties |
| SrcRouteOverlap.Admit | src/brunnels/route.py:138-144 | a plain brunnel is a candidate exactly when it has a span and is unfiltered; a compound member's test can raise from `is_representative` or `get_route_span`, evaluated left to right |
| SrcRouteOverlap.Candidates | src/brunnels/route.py:138-144 | the first exception of the comprehension escapes; otherwise the candidates are exactly the admitted brunnels, unfiltered, in dictionary order |
| SrcRouteOverlap.Demote | src/brunnels/route.py:209-211 | demoted candidates become NOT_NEAREST and nothing else changes |
| SrcRouteOverlap.FilterOverlappingBrunnels | src/brunnels/route.py:123-215 | an empty route or brunnel map is left alone; the comprehension's exception escapes; otherwise only candidates' reasons change, to NOT_NEAREST, two candidates joined by overlaps are never both kept, each is joined to a kept one, one strictly nearer than all it is joined to is kept, and none is strictly nearer than a kept one it is joined to, so with tied averages a least-distance candidate survives |
| SrcRouteOverlap.KeptIffNotDemoted | src/brunnels/route.py:209-211 | a candidate stays unfiltered exactly when it is not demoted |
| SrcShapelyUtils.CoordsToPolyline | src/brunnels/shapely_utils.py:40-70 | fewer than two pairs raise ValueError; otherwise one point per pair, projected when a projection is given |
| SrcShapelyUtils.DistanceToIndex | src/brunnels/shapely_utils.py:73-106 | a negative distance and one beyond the total length raise their ValueErrors; nothing else does |
| SrcShapelyUtils.DistanceToIndexFirst | src/brunnels/shapely_utils.py:93-106 | an answer names a segment, the running length at its end reaches the distance, and at no earlier segment's end does it |
| SrcShapelyUtils.ZeroDistanceIsFirstSegment | src/brunnels/shapely_utils.py:94-100 | distance 0 is on the first segment |
| SrcGeometryUtils.BearingsAligned | src/brunnels/geometry_utils.py:40-62 | for bearings in [0, 360], aligned exactly when the difference is within tolerance of 0, 180 or 360 degrees |
| SrcGeometryUtils.BearingsAlignedSymmetric | src/brunnels/geometry_utils.py:55-62 | alignment is symmetric in the two bearings |
| SrcGeometryUtils.SelfAligned | src/brunnels/geometry_utils.py:55-59 | every bearing is aligned with itself |
| SrcGeometryUtils.AlignedMonotone | src/brunnels/geometry_utils.py:58-62 | a larger tolerance keeps aligned pairs aligned |
| SrcGeometryUtils.OppositeBearings | src/brunnels/geometry_utils.py:55-62 | opposite bearings are aligned at tolerance 0, a tenth of a degree off they are not |
| SrcGeometryUtils.WraparoundExample | src/brunnels/geometry_utils.py:55-56 | 10 and 350 degrees are aligned at tolerance 20 and not at 19.9 |
| SrcGeometryUtils.BearingTo | src/brunnels/geometry_utils.py:79-102 | the same position, elevation included, gives 0; a start at either pole gives 180 or 0; between two distinct positions off the poles the formula's value, within [0, 360) |
| SrcGeometryUtils.BearingToPoles | src/brunnels/geometry_utils.py:86-89 | away from the poles, the bearing to the north pole is 0 and to the south pole 180 |
| SrcRoute.FirstNearPole | src/brunnels/route.py:477-482 | none exactly when no point from `from` on lies beyond 85 degrees of latitude; otherwise the earliest such point |
| SrcRoute.FirstCrossing | src/brunnels/route.py:485-493 | none exactly when no step from `from` on jumps more than 180 degrees of longitude; otherwise the earliest such step |
| SrcRoute.CheckRoute | src/brunnels/route.py:463-493 | a route passes exactly when no point is near a pole and no step crosses the antimeridian; the first pole point is reported, with its latitude, before any crossing; with no pole point the first crossing is reported with its longitude jump; an empty route passes |
| SrcRoute.FirstProblem | src/brunnels/route.py:476-493 | no problem exactly when no point is near a pole and no step crosses the antimeridian; otherwise the first pole point, and only without one the first crossing |
| SrcRoute.CalculateBbox | src/brunnels/route.py:92-121 | the box lies within the valid coordinate range, holds every valid route point, and each side is a route coordinate or the range limit |
| SrcRoute.GetBbox | src/brunnels/route.py:46-90 | an empty route and only an empty route raises ValueError; a zero buffer gives the plain box; a result is always clamped; the only other error is the division by zero a non-zero buffer can reach; a non-negative buffer gives a box holding the plain box and every valid point |
| SrcRoute.ClosestPointTo | src/brunnels/route.py:323-364 | fewer than two route points and only then raises ValueError; otherwise the segment chosen is the first nearest one, and the distance along the route is its start's cumulative distance plus the distance to the projected point |
| SrcRoute.ClosestAlongSegment | src/brunnels/route.py:323-364 | with the route's own cumulative distances, the distance along the route found lies between the chosen segment's two ends |
| SrcRoute.FilterMisaligned | src/brunnels/route.py:565-594 | a brunnel stays unfiltered exactly when it was unfiltered and is aligned; only the reason changes, filtered brunnels are left alone, and every changed brunnel is marked unaligned |
| SrcRoute.FilterMisalignedIdempotent | src/brunnels/route.py:565-594 | filtering a second time changes nothing |
| SrcRoute.SpanFor | src/brunnels/brunnel.py:294-321 | a span exists exactly when the brunnel and the route each have two points; its start is at most its end and it covers every brunnel point's distance along the route |
| SrcRoute.CalculateRouteSpans | src/brunnels/route.py:596-602 | the call fails exactly when some unfiltered brunnel's span fails, with the first failure's error; otherwise only spans change, filtered brunnels are untouched and every unfiltered brunnel gets its own span |
| SrcMetrics.Step | src/brunnels/metrics.py:44-66 | one brunnel's iteration fails exactly when its representative test fails; the Counter gains its reason unless NONE, and each counter grows by one exactly when the brunnel is a representative of that counter's class |
| SrcMetrics.Tally | src/brunnels/metrics.py:36-66 | the pass succeeds exactly when every representative test does; on failure the error is the first failing brunnel's; on success the Counter holds the reasons that are not NONE and each counter the number of representatives of its class |
| SrcMetrics.CollectMetrics | src/brunnels/metrics.py:26-76 | the same for the whole dictionary, counter by counter |
| SrcMetrics.CountersAddUp | src/brunnels/metrics.py:51-66 | bridges plus tunnels are the representatives, the contained counts are at most the totals, and individual plus compound equals the contained bridges plus tunnels |
| SrcMetrics.KindsNest | src/brunnels/metrics.py:51-66 | contained bridges are bridges, contained tunnels are tunnels, and an included representative is individual or compound but not both |
| SrcMetrics.NonRepresentativeOnlyExcluded | src/brunnels/metrics.py:48-52 | a brunnel that does not represent its compound changes only the Counter |
| SrcMetrics.ExcludedStep | src/brunnels/metrics.py:48-49 | the Counter gains a brunnel's reason exactly when that reason is not NONE |
| Text.NatToStringInjective | src/brunnels/file_utils.py:59-60 | different counters print differently, so numbered names differ |
| Text.IdString | src/brunnels/brunnel.py:93-96 | a way's printed id is never empty and never holds the `;` separator |
| Text.SplitJoin | src/brunnels/brunnel.py:92-94 | ids joined with `;` split back into the same ids |
| Text.LowerString | src/brunnels/file_utils.py:38 | lower-casing keeps the length and lower-cases each character |
| Paths.Basename | src/brunnels/file_utils.py:35 | the base name holds no slash, is a suffix of the path, and is the whole path when it has no slash |
| Paths.Dirname | src/brunnels/file_utils.py:34 | the directory is a prefix of the path, and empty when the path has no slash |
| Paths.Join | src/brunnels/file_utils.py:47 | an absolute second part replaces the first; otherwise the result ends with the second part |
| Paths.BasenameOfJoin | src/brunnels/file_utils.py:47 | a name joined to any directory is that path's base name |
| Paths.SplitJoinRoundTrip | src/brunnels/file_utils.py:34-47 | a directory, a slash and a name split back into the directory and the name, and joining them rebuilds the path |
| Paths.JoinInjective | src/brunnels/file_utils.py:58-60 | joining different relative names to one directory gives different paths |
| Paths.Splitext | brunnels/file_utils.py:105 | the stem and the extension make up the path, and the extension is empty or one dot followed by no dot or slash |
| Paths.SplitextAdded | brunnels/file_utils.py:104-106 | a name that is not all dots gets back exactly the extension added to it |
| OutputNames.StripGpx | src/brunnels/file_utils.py:37-41 | a name ending in `.gpx` in any case loses its last four characters; any other name is kept |
| OutputNames.StripGpxAnyCase | src/brunnels/file_utils.py:37-41 | adding `.gpx` in any mix of cases and stripping gives the name back |
| OutputNames.BaseOutput | src/brunnels/file_utils.py:33-44 | the base output holds no slash and ends in " map" |
| OutputNames.CandidateInDirectory | src/brunnels/file_utils.py:47 | every candidate path has its candidate name as base name |
| OutputNames.CandidatesDistinct | src/brunnels/file_utils.py:46-60 | the 181 candidates are different paths |
| OutputNames.CandidateSetSize | src/brunnels/file_utils.py:58-60 | the first n candidates are n different paths |
| OutputNames.ExclusiveCreate | src/brunnels/file_utils.py:48-56 | an existing path gives FileExistsError, a refused one its OS error, any other is created |
| OutputNames.FirstFree | src/brunnels/file_utils.py:46-69 | the first candidate from i on that does not exist: all before it exist and it does not, or all exist |
| OutputNames.AllTakenIffPastEnd | src/brunnels/file_utils.py:71-77 | the search runs past the last candidate exactly when all 181 candidates exist |
| OutputNames.FirstFreeAfterTaking | src/brunnels/file_utils.py:46-64 | once the first free candidate is created, the first free one comes later |
| OutputNames.FirstFreeGrows | src/brunnels/file_utils.py:46-69 | more existing files never move the first free candidate earlier |
| SrcFileUtils.Attempt | src/brunnels/file_utils.py:58-77 | the loop ends at the first free candidate: with its name, with ValueError if creating it fails otherwise, or with RuntimeError when all exist |
| SrcFileUtils.GenerateOutputFilename | src/brunnels/file_utils.py:12-77 | a result is the first candidate that did not exist and the file system gains exactly that file; RuntimeError exactly when all 181 candidates exist; any other error is an OS error's ValueError |
| SrcFileUtils.GivingUpNeedsAllTaken | src/brunnels/file_utils.py:71-77 | giving up needs at least 181 existing files |
| SrcFileUtils.SecondCallMovesOn | src/brunnels/file_utils.py:46-64 | because the chosen file is kept, a second call chooses a later, different path |
| PkgFileUtils.ValidateFilenameComponent | brunnels/file_utils.py:74-90 | ValueError exactly when the name is empty or all white space |
| PkgFileUtils.ValidateFullPath | brunnels/file_utils.py:93-106 | a path passes exactly when its base name without extension passes |
| PkgFileUtils.TryCreateFile | brunnels/file_utils.py:109-134 | false exactly when the file exists, true exactly when it neither exists nor is refused, ValueError with the OS error's text otherwise |
| PkgFileUtils.Attempt | brunnels/file_utils.py:58-71 | the loop ends at the first free candidate: with its name, with ValueError if probing it fails otherwise, or with RuntimeError when all exist |
| PkgFileUtils.GenerateOutputFilename | brunnels/file_utils.py:13-71 | a result is the first candidate that does not exist, neither existing nor refused; RuntimeError exactly when all 181 candidates exist; any other error is an OS error's ValueError |
| PkgFileUtils.GivingUpIffAllExist | brunnels/file_utils.py:65-71 | the search gives up exactly when all 181 candidates exist |
| PkgFileUtils.CandidatesValid | brunnels/file_utils.py:48-60 | the name checks never reject a constructed name |
| PkgFileUtils.SameChoiceAsReserving | brunnels/file_utils.py:13-71 | on every file system the package returns the path the current generation reserves, or the same error; only the current generation keeps the file |
| PkgFileUtils.AttemptsAgree | brunnels/file_utils.py:58-63 | both generations' loops stop at the same candidate with the same outcome |
| SrcRouteOverlap.OverlappingSymmetric | src/brunnels/route.py:149-179 | the overlap relation the grouping walks is symmetric |
| SrcRouteOverlap.OneSurvivorEach | src/brunnels/route.py:199-211 | when every group keeps its nearest member and demotes the rest, each candidate is joined by overlaps to exactly one kept candidate |
| RootGeometryUtils.OverlappingSymmetric | geometry_utils.py:266-280 | two candidates' spans overlap in either order alike |
| RootGeometryUtils.OneSurvivorEach | geometry_utils.py:410-419 | when every group keeps its nearest member and demotes the rest, each candidate is joined by overlaps to exactly one kept candidate |
| AdjacentGrouping.GroupsOfChained | brunnels/compound_brunnel_way.py:318-343 | within a group each brunnel is the route-order successor of the previous one and shares a node with it |
| AdjacentGrouping.GroupsOfDisjoint | brunnels/compound_brunnel_way.py:318-343 | no brunnel lies in two groups |
| RootGeometry.ContainOneIdempotent | geometry.py:123-144 | testing one brunnel a second time leaves it as the first test left it |
| RootGeometryUtils.ContainOneIdempotent | geometry_utils.py:223-255 | testing one brunnel a second time leaves it as the first test left it |
| SrcRoute.CalculateDistances | src/brunnels/route.py:297-321 | a route without points keeps its old list; otherwise the loop yields the route's cumulative distances: one entry per point, 0 at the start, each growing by the distance from the previous point |
| SrcRoute.SameRecurrence | src/brunnels/route.py:306-321 | any list that starts at 0 and grows by each step's distance is the cumulative distance list, so the loop and the reference definition agree |

## Left out

- Shapely buffering, `contains`, `nearest_points` and `project` are foreign-library calls. Their results are inputs: containment and alignment booleans, per-segment projections, and along-route distances.
- `find_closest_segments` (src/brunnels/geometry_utils.py:19-37) is a Shapely `nearest_points`/`project` call and is not modelled.
- Haversine, geodesic distance, the `bearing_to` formula, the degree/metre conversions and the transverse Mercator projection are floating-point library code. They become a distance function that is never negative, or given values.
- The `buffer(0)` repair of an invalid buffered route (geometry_utils.py:202-217) is Shapely work and is left out.
- SrcRoute.GetBbox: the cosine of the latitude is an input `absCos`. The ZeroDivisionError it can cause at the poles is modelled only as a possible error of a non-zero buffer.
- brunnels/distance_utils.py is not part of this model. The closest-point results that brunnels/brunnel.py takes from it are inputs.
- The HTML rendering, map visualisation, legend, Overpass network queries, CLI, logging, GPX parsing and browser launch are I/O and are left out.
- The memoisation caches (`_linestring`, `_coordinates`, `_combined_metadata`) are treated as recomputation.
- The root `route.py`, `brunnel_way.py`, `models.py`, `config.py` and `__init__.py` are data declarations and thin wrappers, and are left out.
- The root scripts import names that their modules do not define:
  - geometry_utils.py imports `find_closest_segments`, `calculate_bearing` and `bearings_aligned` from distance_utils.py;
  - geometry_utils.py imports `Position` and `Geometry` from geometry.py;
  - models.py has no `BrunnelWay`, `FilterReason` or `RouteSpan`.

  The model gives these files the meaning their own code implies.
- src/brunnels/metrics.py reads `exclusion_reason` and `compound_group`. The model reads these as the brunnel's filter reason and compound group.
- SrcBrunnel.FindCompoundBrunnels: the source keys its dictionary by `get_id`. The model assumes each key equals that id and works with positions.
- Python set iteration order in the component search is taken as increasing position.
- OutputNames.ExclusiveCreate: an existing path is reported as existing even when the OS would also refuse it. The model does not choose between the two errors.
- Text.LowerString: lower-casing is ASCII only, so the `.gpx` test ignores non-ASCII case mappings.
- Text.IntToString, Text.NatToString: only decimal printing of integers is modelled, not other `str` conversions.
- Tests that target APIs absent from the code are not modelled. These include `FilterReason.CLOSED_WAY`, the two-argument `RouteSpan`, `Route(coords=...)` and `euclidean_to_haversine_distance`.
- Floating-point rounding is not modelled: coordinates and distances are exact reals.
- SrcRoute.CheckRoute: the `:.3f` rendering of the latitude and of the longitude jump in its messages is the parameter `fixed3`, because float formatting is not modelled.

## Findings

| source | as written | input that shows it | evidently intended | confidence | as-written member | corrected member |
|---|---|---|---|---|---|---|
| brunnels/coordinate_combiner.py:206 | the first way always starts forward, whichever of its ends joins the second way | ways with nodes [20, 10] and [20, 30] give p2, p1, p2; the oriented ways do not meet and p3 is lost | reverse the first way when it joins at its first node, as src/brunnels/coordinate_combiner.py:218-221 does, giving p1, p2, p3 | high, not executed | PkgCoordinateCombiner.BackwardForwardBreaksChain | SrcCoordinateCombiner.WaysMeet |
| compound_brunnel_way.py:70-80 | every later component drops its first stored point, assuming that point is the shared node | ways with nodes [10, 20] and [30, 20] give p1, p2, p2; p3 is lost | orient each way before dropping the shared point, as `RootCompoundBrunnelWay.OrientedCoordinates` does, giving p1, p2, p3 | medium, not executed | RootCompoundBrunnelWay.ReversedWayRepeatsJoin | RootCompoundBrunnelWay.OrientedComponentsMeet |
