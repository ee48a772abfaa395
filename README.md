# Fortune's sweep for Voronoi diagrams, in Dafny

This project models the sweep engine of the `fortunes` crate, which
computes the edges of a Voronoi diagram with Fortune's algorithm, and proves
properties of the model.

A horizontal sweep line moves down through the sites. Three parts work together:

- **Event queue.** It holds one site event per site and circle events for arcs about to vanish. It always hands out the highest event first.
- **Beachline.** The beachline is a binary tree kept in a growable arena of entries linked by parent, left-child and right-child indices. Arcs (parabola pieces, one per site) are its leaves and breakpoints (the Voronoi edges being traced) its inner nodes.
- **Event handling.**
  - A site event splits the arc above the new site into five arena entries.
  - A circle event removes an arc, finishes the two edge pieces that meet at the centre of the circle through it and its neighbours, and merges its two bounding breakpoints into one.
  - When the queue is empty, each breakpoint still on the beachline becomes a segment clipped to the bounding box.

The model has the following modules, one concern each:

- `Geometry` (`geometry.dfy`, from `geometry.rs`) holds the point arithmetic and the formulas for:
  - the parabola point
  - the quarter turn
  - the circumcentre

  They are pure functions over exact reals. Lemmas state what each one computes.
- `Rays` (`rays.dfy`, also from `geometry.rs`) holds ray intersection and box clipping, with the same style of lemmas.
- `Events` (`events.dfy`) holds the `Event` datatype and the priority queue as a class over a map from event to priority.
- `BeachlineTree` (`tree.dfy`) holds the arena entry types. It also has a ghost `Tree` datatype for the shape the arena links should describe. Navigation and the two splices are specified on that tree.
  - It also holds `SpliceAsWritten`, the circle-event splice exactly as the source writes it, and `SpliceFixed`, the corrected splice.
- Three modules prove the tree lemmas:
  - `TreeFacts` (`tree_facts.dfy`): embedding, subtrees, ancestors and grafting.
  - `TreeOrder` (`tree_order.dfy`): the in-order sequence, its alternation of arcs and breakpoints, and the arena side of a graft.
  - `TreeSplice` (`tree_splice.dfy`): removing an arc, and the correctness of the corrected splice.
- `BeachlineArena` (`beachline.dfy`) proves the site-event splice.
- `BeachlineQueries` (`beachline_queries.dfy`) defines the descent to the arc under a point, the neighbours of an arc, the circle-event priority and its scheduling, and the edges emitted at the end.
- `BeachlineState` (`beachline_state.dfy`) has the class `Beachline`, with fields `root`, `nodes` and a ghost `shape`. Each method of `beachline.rs` is a method here that walks or updates the arena as the source does, with one exception: `SpliceOut`, the arena update of a circle event, also sets the sibling's parent link, which the source leaves stale (see Findings). Each method is proved to compute what the tree functions specify, and to keep the arena embedding the shape.
- `Sweep` (`sweep.dfy`) holds the sweep's bookkeeping invariant, its preservation by one event, and the errors where the source panics.
- Four modules follow `lib.rs`:
  - `QueueUpdates` (`queue_updates.dfy`): how scheduling and dropping circle events keep the queue's invariants.
  - `SiteEvent` (`site_event.dfy`): the site-event handler.
  - `CircleEvent` (`circle_event.dfy`): the circle-event handler.
  - `Fortunes` (`fortunes.dfy`): the main loop.
- `SweepRun` (`sweep_run.dfy`) defines a run of the sweep: its state between events, one event step, and what the main loop keeps true from event to event.
- `SpliceFinding` (`findings.dfy`) exhibits the defect listed under Findings.

What is proved, in short. The sweep-level facts (the last two points) are about the sweep with the corrected circle-event splice; the source's stale parent link is modelled only at the splice (see Findings and "## Left out").

- **Navigation.** Every navigation method returns the tree-level answer. These are the leftmost or rightmost arc, the nearest ancestor on either side, the neighbouring arcs and the bounding breakpoints.
- **Site-event splice.** The splice appends exactly five entries. It changes no existing entry other than the old arc's parent. It keeps the arena a well-formed tree with alternating arcs and breakpoints.
- **Circle-event splice.** The corrected splice removes exactly one arc and one breakpoint and keeps the arena well formed.
- **Circle events.** A circle event is queued exactly when the source's three conditions hold and its top is not above the sweep line, at that top.
- **Sweep order.** The ghost trace of handled events has non-increasing priorities; each site event in it is for an input site, at the site's height, and appears once. A completed sweep handles every input site.
  - The ghost run is the sweep's state after each handled event. Each handled event takes one state to the next as the handlers specify: a site event splits the arc under the site, a circle event closes its arc.
  - At most 3·S − 2 events are handled for S distinct sites.
- **Output.** A completed sweep returns the circle events' edge pieces, two per event, followed by the clipped segments of the breakpoints left on the beachline: exactly 2·S − 2 + C segments over S distinct sites with C circle events.
  - The two pieces of each circle event end at one point: the centre of a circle through three input sites that are not on one line.
  - This rests on an arena invariant: every arc ever stored holds an input site.
- **Errors.** The sweep returns an error in only two cases.
  - Its fuel ran out: fuel events were handled and another one was still queued. The loop takes the next event off the queue before it tests the fuel, so fuel of 3·S − 1 or more is never spent.
  - A circle event failed because its three sites are collinear, where the source panics. The ghost result names that event and the beachline it found, which is the final beachline.
  - A circle event never lacks a neighbour: every queued circle event's arc has an arc on either side.
  - With no sites and any fuel, the result is no segments.

Notes on the repository's code and tests:

- **Two-site tests.** The vertical and horizontal two-site tests (`lib.rs:103-155`) are reproduced as lemmas about the breakpoints and the clipped edges. Two sites and no circle event give 2 segments, which the count above agrees with.
- **Three-site test.** The vertex (500, 437.5) that all three expected edges leave from is the circumcentre the model computes for the three sites (`CircumcenterOfThreeSites`). Three distinct sites give at least 4 segments by the count proved for `FortunesAlgorithm`. So the expectation of exactly 3 in the three-site test (`lib.rs:157-188`) cannot be met by the code as modelled. The code emits the two edge pieces that end at the circle's centre as separate segments and does not merge them with the rays that leave it.
- **Collinear sites.** `circumcenter` panics when the three sites are collinear (`geometry.rs:152-154`). The model returns None there, and `RemoveParabola` reports the error `Collinear`.
- **Input validation.** The code does not check its input for NaN coordinates or an empty bounding box, and neither does the model.

## Model

| member | source | states |
|---|---|---|
| Geometry.PointOnArcAtX | fortunes/src/geometry.rs:107-119 | the source's formula, degenerate case included; it carries no contract of its own, and PointOnArcAtXFacts states what it computes |
| Geometry.NormalVector | fortunes/src/geometry.rs:130-132 | the quarter turn (-y, x); it carries no contract of its own, and NormalVectorFacts and NormalVectorTwice state what it computes |
| Geometry.PointOnArcAtXFacts | fortunes/src/geometry.rs:107-119 | off the directrix, the point lies above x and is as far from the focus as from the line y = yl; on it, the point is the midpoint ((focus.x + x)/2, yl) |
| Geometry.ParabolaPoint | fortunes/src/geometry.rs:111-118 | the source's y-formula puts (x, y) at equal distance from focus and directrix |
| Geometry.NormalVectorFacts | fortunes/src/geometry.rs:130-132 | the quarter turn of p is perpendicular to p, has the same squared length, and turns counter-clockwise |
| Geometry.NormalVectorTwice | fortunes/src/geometry.rs:130-132 | applying the quarter turn twice gives -p |
| Geometry.Circumcenter | fortunes/src/geometry.rs:134-164 | no centre (the source's panic) exactly when a, b, c are collinear; otherwise the centre is equidistant from a, b and c |
| Geometry.CenterOfEquidistant | fortunes/src/geometry.rs:142-163 | the centre computed by the source's Cramer step is equidistant from the three points |
| Geometry.SolvesBisectors | fortunes/src/geometry.rs:149-161 | Cramer's rule as written (x from the second equation, or from the first when a2 is zero) solves both linear equations whenever the determinant is non-zero |
| Geometry.BisectorEquation | fortunes/src/geometry.rs:142-147 | a point satisfies the source's linear equation for a pair of points exactly when it is equidistant from them |
| Geometry.DenominatorIsCross | fortunes/src/geometry.rs:150-154 | the determinant is -4 times the cross product of b - a and c - a, so it vanishes exactly for collinear points |
| Geometry.CircumcenterOfThreeSites | fortunes/src/lib.rs:157-188 | the circumcentre of (250, 250), (500, 750) and (750, 250) is (500, 437.5), the point all three expected edges leave from, at squared distance 312.5² from the sites |
| Rays.Intersection | fortunes/src/geometry.rs:166-181 | None for parallel directions or ray parameters of different sign; otherwise the point is ao + u·ad and also bo + v·bd |
| Rays.RaysMeet | fortunes/src/geometry.rs:174-180 | the two parametrisations computed by the source name the same point |
| Rays.IntersectionUnique | fortunes/src/geometry.rs:166-181 | any common point of the two lines has exactly the source's parameters u and v |
| Rays.BoundedSegment | fortunes/src/geometry.rs:214-254 | the ray from origin clipped by the clip factor; it carries no contract of its own, and ClipBounds and BoundedSegmentInBox state what it computes |
| Rays.ClipFactor | fortunes/src/geometry.rs:225-247 | from inside the box the clip factor is never negative |
| Rays.ClipBounds | fortunes/src/geometry.rs:225-247 | the clip factor is at most each moving axis's hit distance and, for a non-zero direction, equal to one of them |
| Rays.AxisClip | fortunes/src/geometry.rs:248-251 | one coordinate stepped by the clip factor stays between its walls, and reaches one when the factor is that axis's hit distance |
| Rays.BoundedSegmentInBox | fortunes/src/geometry.rs:214-254 | from an origin inside the box the segment starts at the origin and ends on the ray along the direction, inside the box and, for a non-zero direction, on a wall |
| Rays.BoundedSegmentUp | fortunes/src/geometry.rs:262-294 | (500, 500) along (0, 500) clips to (500, 1000) |
| Rays.BoundedSegmentDown | fortunes/src/geometry.rs:296-311 | (750, 500) along (0, -500) clips to (750, 0) |
| Events.MaxExists | fortunes/src/lib.rs:30 | a non-empty queue has an entry of highest priority, so pop always has an answer |
| Events.EventQueue.constructor | fortunes/src/lib.rs:22 | a new queue is empty |
| Events.EventQueue.Push | fortunes/src/beachline.rs:245 | push inserts the event or re-prioritises it; nothing else changes |
| Events.EventQueue.Pop | fortunes/src/lib.rs:30 | pop returns None exactly on an empty queue, else an entry of highest priority, which leaves the queue |
| Events.EventQueue.Remove | fortunes/src/lib.rs:92-95 | remove drops exactly that key, and is a no-op when it is absent |
| BeachlineTree.SpliceAsWritten | fortunes/src/beachline.rs:190-218 | the circle-event arena update as written: no result (a panic) without a parent, and otherwise the same length with every parent link as before, the sibling's included |
| BeachlineTree.SpliceFixed | fortunes/src/beachline.rs:190-218 | succeeds exactly when the as-written update does, keeps the length, agrees with it on every entry but the sibling, and sets the sibling's parent to p's grandparent |
| BeachlineTree.ArcSitesAppend | fortunes/src/beachline.rs:93-99 | pushing entries onto the arena adds exactly their arcs' sites |
| BeachlineTree.SpliceFixedSites | fortunes/src/beachline.rs:190-218 | the circle-event update stores no new arc: the one payload it writes is the merged breakpoint |
| TreeFacts.AscendStep | fortunes/src/beachline.rs:278-287 | one step of the parent walk moves to the node's parent in the tree; the nearest ancestor on a side is kept or found |
| TreeFacts.NeighbourExtreme | fortunes/src/beachline.rs:334-350 | an arc has a neighbouring arc on a side exactly when it is not the extreme arc of the beachline on that side |
| TreeFacts.ReplaceExtreme | fortunes/src/beachline.rs:137-168 | replacing an arc by a subtree keeps the extreme arc on a side, unless the arc was that extreme, which then becomes the subtree's extreme arc |
| TreeFacts.RemoveLeafExtreme | fortunes/src/beachline.rs:201-218 | removing an arc that is not the extreme arc on a side keeps that extreme arc |
| TreeFacts.ReplaceInterior | fortunes/src/beachline.rs:137-168 | after a site event's split, an arc that had arcs on both sides and is still present still has |
| TreeFacts.RemoveLeafInterior | fortunes/src/beachline.rs:201-218 | after a circle event removes an inner arc, every other inner arc still present is still inner |
| TreeOrder.InOrderAlternates | fortunes/src/beachline.rs:29-56 | in a linked beachline the in-order sequence alternates arc, breakpoint, ..., arc: one more arc than breakpoints |
| TreeOrder.Graft | fortunes/src/beachline.rs:159-168 | re-pointing the parent's child slot at a new embedded subtree makes the arena embed the tree with that subtree grafted in |
| TreeSplice.RemoveLeafIsReplace | fortunes/src/beachline.rs:201-218 | removing arc p is replacing p's parent by p's sibling |
| TreeSplice.LeafParent | fortunes/src/beachline.rs:190-208 | an arc with both bounding breakpoints has a parent that is not the root and that claims it; that parent is one of the two bounding breakpoints |
| TreeSplice.SpliceUnfold | fortunes/src/beachline.rs:190-218 | in a tree-shaped arena the source's splice does not panic; it overwrites the other bounding breakpoint and re-points the grandparent at the sibling, and the corrected splice also sets the sibling's parent |
| TreeSplice.SpliceSetting | fortunes/src/beachline.rs:183-218 | where the source's checks look: the parent and grandparent exist and claim their children, and xl and xr are distinct breakpoints |
| TreeSplice.RemoveLeafFacts | fortunes/src/beachline.rs:210-218 | removing an arc loses exactly that arc and one breakpoint and keeps indices distinct |
| TreeSplice.SpliceEmbeds | fortunes/src/beachline.rs:199-218 | with the sibling's parent re-pointed, the arena embeds the tree without the arc |
| TreeSplice.SpliceCorrect | fortunes/src/beachline.rs:174-222 | the splice as written keeps the child links right (Linked); the corrected splice makes the arena embed the tree without p, overwrites the other bounding breakpoint with x, and keeps the arena's length |
| TreeSplice.RemoveArcCounts | fortunes/src/beachline.rs:174-222 | a circle event leaves one arc and one breakpoint fewer |
| BeachlineArena.SpliceArc | fortunes/src/beachline.rs:129-168 | the site-event arena update: re-point the old arc's parent, append five entries; it carries no contract of its own, and SpliceArcArena and SpliceArcCorrect state what it does |
| BeachlineArena.SpliceArcArena | fortunes/src/beachline.rs:129-168 | a site event appends five entries with the source's links at len..len+4, keeps links in range, and changes no earlier entry other than the old arc's parent |
| BeachlineArena.SpliceArcSites | fortunes/src/beachline.rs:129-168 | the site-event update adds exactly the sites of the arcs a, b and c to the arena's arcs |
| BeachlineArena.FiveEmbeds | fortunes/src/beachline.rs:137-157 | the five new entries embed xl over a and xr, xr over b and c |
| BeachlineArena.GraftFive | fortunes/src/beachline.rs:137-168 | replacing the arc by the five-node subtree keeps indices distinct, swaps the arc for a, b, c and adds two arcs and two breakpoints |
| BeachlineArena.SpliceArcEmbeds | fortunes/src/beachline.rs:129-168 | the arena after the splice embeds the tree with the arc replaced by the five-node subtree |
| BeachlineArena.SpliceArcCorrect | fortunes/src/beachline.rs:118-168 | the arena stays well formed; xl becomes the root exactly when the old arc was; arcs and breakpoints each grow by two |
| BeachlineArena.SpliceArcInOrder | fortunes/src/beachline.rs:137-168 | in in-order, the old arc is replaced in place by a, xl, b, xr, c |
| BeachlineQueries.Descend | fortunes/src/beachline.rs:101-116 | the descent ends at an arc; it goes left at a breakpoint exactly when p.x is left of the breakpoint's x |
| BeachlineQueries.NeighbourFacts | fortunes/src/beachline.rs:334-380 | a bounding breakpoint on a side exists exactly when the neighbouring arc does; it is a breakpoint entry, the neighbour an arc entry other than the arc itself |
| BeachlineQueries.NeighbourLink | fortunes/src/beachline.rs:334-350 | the neighbouring arc is the extreme arc, towards the arc, of the bounding breakpoint's child on that side |
| BeachlineQueries.Surroundings | fortunes/src/beachline.rs:224-237 | both neighbours and both bounding breakpoints are present together, or neither; they are present exactly when the arc is neither the first nor the last arc of the beachline |
| BeachlineQueries.CircleTop | fortunes/src/beachline.rs:224-252 | a circle priority exists exactly when both neighbours exist with different sites, their edges meet at some s, and s.y - distance(site, s) is not above the sweep line; the priority is then that value |
| BeachlineQueries.Schedule | fortunes/src/beachline.rs:242-245 | with a priority, Circle(i) is queued at it and every other entry is kept with nothing else added; without one, the queue is unchanged |
| BeachlineQueries.EdgeSegments | fortunes/src/beachline.rs:390-407 | the clipped segments of a subtree's breakpoints; it carries no contract of its own, and EdgeSegmentsCount and EdgeSegmentsPreOrder state what it returns |
| BeachlineQueries.EdgeSegmentsCount | fortunes/src/beachline.rs:382-407 | one segment per breakpoint, one fewer than there are arcs |
| BeachlineQueries.EdgeSegmentsPreOrder | fortunes/src/beachline.rs:382-407 | the k-th segment is the k-th breakpoint in pre-order clipped to the box |
| BeachlineState.Beachline.constructor | fortunes/src/beachline.rs:86-91 | a new beachline is empty and valid |
| BeachlineState.Beachline.AddFirstParabola | fortunes/src/beachline.rs:93-99 | on an empty beachline, appends one arc with no links, makes it the root, and keeps every earlier entry |
| BeachlineState.Beachline.ArcAt | fortunes/src/beachline.rs:352-357 | the payload of an arc entry |
| BeachlineState.Beachline.ArcUnderPoint | fortunes/src/beachline.rs:101-116 | None exactly when there is no root; otherwise the arc entry the descent reaches |
| BeachlineState.Beachline.Minimum | fortunes/src/beachline.rs:254-264 | following left children ends at the leftmost arc of the subtree |
| BeachlineState.Beachline.Maximum | fortunes/src/beachline.rs:266-276 | following right children ends at the rightmost arc of the subtree |
| BeachlineState.Beachline.Predecessor | fortunes/src/beachline.rs:278-287 | the parent walk returns the nearest ancestor holding the node in its right subtree, None on the leftmost spine |
| BeachlineState.Beachline.Successor | fortunes/src/beachline.rs:307-316 | the parent walk returns the nearest ancestor holding the node in its left subtree, None on the rightmost spine |
| BeachlineState.Beachline.LeftArc | fortunes/src/beachline.rs:334-341 | the arc left of i (maximum of the predecessor's left subtree), None exactly for the leftmost arc |
| BeachlineState.Beachline.RightArc | fortunes/src/beachline.rs:343-350 | the arc right of i (minimum of the successor's right subtree), None exactly for the rightmost arc |
| BeachlineState.Beachline.LeftEdge | fortunes/src/beachline.rs:366-372 | the bounding breakpoint left of i and its index, None exactly when there is none |
| BeachlineState.Beachline.RightEdge | fortunes/src/beachline.rs:374-380 | the bounding breakpoint right of i and its index, None exactly when there is none |
| BeachlineState.Beachline.CheckCircleEvent | fortunes/src/beachline.rs:224-252 | the queue gains Circle(arcIdx) at the circle's top exactly when the circle priority exists, and is unchanged otherwise |
| BeachlineState.Beachline.ReplaceArc | fortunes/src/beachline.rs:118-172 | the arena is the five-entry splice, xl takes the arc's place or the root, the shape becomes the tree with the arc replaced, and the outer arcs' circle events are checked |
| BeachlineState.Beachline.SpliceIn | fortunes/src/beachline.rs:129-168 | the arena update of a site event, entry by entry as the source pushes and re-points |
| BeachlineState.Beachline.ReplaceBreakpoint | fortunes/src/beachline.rs:174-222 | the arena is the corrected circle-event splice, the shape loses arc p and one breakpoint, the root is kept, and the neighbours' circle events are checked |
| BeachlineState.Beachline.SpliceOut | fortunes/src/beachline.rs:190-218 | the arena update of a circle event, with the sibling's parent re-pointed |
| BeachlineState.Beachline.ExtendEdgesToBoundingBox | fortunes/src/beachline.rs:382-388 | earlier segments are kept and one clipped segment per breakpoint is appended in pre-order |
| BeachlineState.Beachline.ExtendEdgesAux | fortunes/src/beachline.rs:390-407 | the pre-order walk appends the segments of the subtree and nothing for arcs |
| Sweep.SweepStep | fortunes/src/lib.rs:30-37 | handling the top event keeps the sweep invariant: circles live, priorities non-increasing, each site handled or queued at its height, counts of breakpoints and pieces |
| Sweep.TraceStep | fortunes/src/lib.rs:30-37 | appending the popped event keeps the trace in step with the bookkeeping, provided a site event is for an unhandled site at its height |
| Sweep.TraceFacts | fortunes/src/lib.rs:30-37 | a trace in step with the bookkeeping has non-increasing priorities, site events for input sites at their heights, each site once, and one entry per handled site and circle event |
| Sweep.SweepDone | fortunes/src/lib.rs:30-39 | with the queue empty every site is handled, and pieces plus breakpoints come to 2·S − 2 + C |
| Sweep.CirclePiecesStep | fortunes/src/lib.rs:85-86 | appending two pieces that end at the centre of a circle through three sites of a set keeps the output paired that way, against any larger set of sites |
| Sweep.EventBound | fortunes/src/lib.rs:30-37 | under the sweep invariant at most 3·S − 2 events have been handled for S distinct sites: S site events and fewer than 2·S circle events, as each circle event removes one of the breakpoints the site events added |
| SweepRun.InitialQueue | fortunes/src/lib.rs:22-25 | one site event per input site, at the site's height, and nothing else |
| SweepRun.RunExtend | fortunes/src/lib.rs:30-37 | a run followed by one more event step is a run along the trace with that event appended |
| SweepRun.ProgressStep | fortunes/src/lib.rs:30-37 | handling the top event, as one event step that keeps the sweep invariant, extends the run and keeps the trace in step with the bookkeeping, the arena's arcs on input sites, the pieces paired at circle centres and the bound of 3·S − 2 events |
| Fortunes.QueueSites | fortunes/src/lib.rs:22-25 | the loop pushes Site(p) at p.y for every input site |
| QueueUpdates.ScheduleKeeps | fortunes/src/beachline.rs:242-245 | a circle event pushed at or below yl, for an arc with an arc on either side, keeps yl an upper bound of the queue, keeps every queued circle live and leaves site events and their priorities alone |
| QueueUpdates.LiveAfter | fortunes/src/lib.rs:77-78 | once the circle events of arcs that left the beachline or became its first or last arc are gone, every queued circle names an arc with an arc on either side |
| QueueUpdates.QueueAfterEvent | fortunes/src/lib.rs:44-90 | after removing circle events and scheduling two arcs (each only when it has arcs on both sides), queued circles stay live provided no arc that stops being inner keeps its circle event; yl bounds the queue and site events keep their priorities |
| QueueUpdates.RemoveCircleEvent | fortunes/src/lib.rs:92-95 | only the key Circle(arcIdx) is removed, and nothing happens when it is absent |
| SiteEvent.SiteBreakpoints | fortunes/src/lib.rs:53-59 | xl and xr share an origin on the old arc above the new site, have the site pairs (a, b) and (b, c), are perpendicular to the line between the sites and grow in opposite directions; xl's direction is a - b turned a quarter counter-clockwise, as `normal_vector` picks it |
| SiteEvent.VerticalLineBreakpoints | fortunes/src/lib.rs:103-128 | sites (250, 500) and (750, 500): both breakpoints start at (500, 500) and point down and up |
| SiteEvent.VerticalLineDownEdge | fortunes/src/lib.rs:103-128 | the lower breakpoint's edge clips to (500, 500)-(500, 0) |
| SiteEvent.VerticalLineUpEdge | fortunes/src/lib.rs:103-128 | the upper breakpoint's edge clips to (500, 500)-(500, 1000) |
| SiteEvent.HorizontalLineBreakpoints | fortunes/src/lib.rs:130-155 | sites (500, 750) and (500, 250): both breakpoints start at (500, 500) and point left and right |
| SiteEvent.HorizontalLineLeftEdge | fortunes/src/lib.rs:130-155 | the left breakpoint's edge clips to (500, 500)-(0, 500) |
| SiteEvent.HorizontalLineRightEdge | fortunes/src/lib.rs:130-155 | the right breakpoint's edge clips to (500, 500)-(1000, 500) |
| SiteEvent.ArcSplitIntro | fortunes/src/lib.rs:44-65 | the arena splice and the checks performed by a site event make up the site-event outcome |
| SiteEvent.ArcSplitQueue | fortunes/src/lib.rs:50-64 | dropping the split arc's circle event and scheduling the outer arcs keeps every queued circle on an arc with arcs on both sides, yl an upper bound and the site events with their priorities |
| SiteEvent.ArcSplitFacts | fortunes/src/lib.rs:44-65 | after a site event queued circles stay on arcs with arcs on both sides, yl bounds the queue and site events keep their priorities |
| SiteEvent.ArcSplitSites | fortunes/src/lib.rs:53-61 | splitting an arc stores the new site's arc and two copies of the split arc, so the arena's arc sites gain exactly the new site |
| SiteEvent.AddParabola | fortunes/src/lib.rs:44-65 | the first site becomes the only arc; otherwise the arc under the site loses its circle event and is split into (old, new, old) with the two new breakpoints, adding two breakpoints; either way the arena's arc sites gain exactly the new site |
| CircleEvent.RemoveParabola | fortunes/src/lib.rs:67-90 | an error exactly when a neighbour is missing or the three sites are collinear, and then the error CircleFailure names; otherwise both neighbours' circle events are dropped, two segments [xl.origin, s] and [xr.origin, s] are appended, and the merged breakpoint starts at s |
| CircleEvent.CloseArc | fortunes/src/lib.rs:80-89 | the two pieces are appended and the corrected splice installs the merged breakpoint with origin s, sites (l, r) and direction normal_vector(l - r) |
| CircleEvent.ArcClosedFacts | fortunes/src/lib.rs:67-90 | after a circle event there are two more pieces and one breakpoint fewer, every queued circle stays on an arc with arcs on both sides, and the queue keeps its other invariants |
| CircleEvent.CircleHandledFacts | fortunes/src/lib.rs:74-89 | a handled circle event did not fail, stores no new arc, and its two pieces end at the centre of the circle through the arc's site and its neighbours' sites |
| Fortunes.HandleEvent | fortunes/src/lib.rs:31-36 | a site event returns the pieces unchanged and either makes the site the only arc (queue untouched) or splits the arc under it (ArcSplit); a circle event fails exactly when CircleFailure names a reason (a missing neighbour or collinear sites), with that error and the beachline unchanged, and otherwise drops the neighbours' circle events and closes the arc at the circumcentre (ArcClosed); no event returns OutOfFuel; the arena's arc sites gain at most a site event's site; a circle event's two pieces end at the centre of a circle through three of the arena's arc sites |
| Fortunes.SweepEvent | fortunes/src/lib.rs:30-37 | one turn of the loop keeps the sweep invariant and takes the sweep state one event step on (EventStep); the only error is Collinear, a circle event failing on the beachline it found (FailsOn), which it leaves unchanged; HandleEvent's arc-site and piece facts are passed on |
| Fortunes.SweepTurn | fortunes/src/lib.rs:30-37 | one iteration of the loop: an empty queue stops it without error, with the queue empty; no fuel stops it with OutOfFuel while events are queued; a failing top event stops it with Collinear and the beachline unchanged; otherwise the event step extends the run and the loop's invariant holds of the new state |
| Fortunes.SweepLoop | fortunes/src/lib.rs:30-37 | the ghost states are a run from the start state along the trace to the last state seen, whose arena and shape are the beachline's; the trace matches the bookkeeping, the sweep invariant holds, the pieces come in pairs ending at circle centres of input sites, and at most 3·S − 2 events are handled; without an error the last queue is empty; OutOfFuel comes after exactly fuel handled events with events still queued; any other error is Collinear, the top event of the last queue failing on the last beachline |
| Fortunes.FortunesAlgorithm | fortunes/src/lib.rs:21-42 | the ghost run takes the start state through every handled event to the final arena, shape and pieces; the trace of handled (event, priority) pairs has non-increasing priorities and each site event once, for an input site at its height; a completed sweep ends with an empty queue, handles every input site, returns the circle events' pieces (two per event) followed by the clipped segments of the final beachline's breakpoints, and so no segment for no sites and 2·S − 2 + C segments otherwise; each circle event's two pieces end at the centre of a circle through three input sites not on one line; the arena holds arcs of input sites only; at most 3·S − 2 events are handled, so fuel of 3·S − 1 or more never gives OutOfFuel, which otherwise comes only after fuel handled events with events still queued; the result is Ok([]) for no sites; any other error is Collinear, on the top event of the final queue and the final beachline |
| SpliceFinding.StaleSiblingParent | fortunes/src/beachline.rs:210-218 | in a concrete well-formed beachline the splice as written leaves the sibling's parent naming the removed breakpoint, so the arena no longer embeds the tree; that breakpoint does not hold the sibling as its left child, so the predecessor walk from the sibling answers it, while the tree's left ancestor is the grandparent; the corrected splice re-points the sibling's parent |

## Left out

- `distance` and `breakpoint_at_x` need a square root. They are function-typed parameters (`DistanceFn`, `BreakpointAtXFn`), so nothing about parabola intersections is proved.
- Floating point is not modelled: coordinates are exact reals, so rounding, NaN, infinities and the `OrderedFloat` order are left out.
  - Signed zero is left out too. `Sign` treats zero as positive, while f64 `signum` of -0.0 is -1.
  - So the `-0.0` test (`geometry.rs:279-294`) is the same input as the first test.
  - The sweep's own output depends on this too, by a hand trace of the three-site test (`lib.rs:157-188`). After the first circle event, the re-check of the arc of (250, 250) has `intersection` (`geometry.rs:174-177`) compute v = 0.0 / −250000 = −0.0. `signum` gives −1 for it, the same as for u = −0.5. So the source queues a degenerate circle event at 125 and later emits a zero-length piece: 6 segments. The model's `Sign(0) = 1` rejects that event: 5 segments.
- FortunesAlgorithm: termination of the sweep is not modelled. The loop runs for at most `fuel` events and returns `OutOfFuel` beyond that.
- FortunesAlgorithm: on an error the returned trace does not include the failing event. The ghost `failure` names it instead, with the beachline it found.
- FortunesAlgorithm: the sweep runs the corrected circle-event splice (`SpliceFixed`, through `SpliceOut`), so its contracts describe the corrected program. In the source the sibling keeps a stale parent link, and the neighbour look-ups of the circle checks that follow (`beachline.rs:220-221`) can then climb into the detached breakpoint and read the removed arc. That as-written behaviour is modelled only at the splice itself (`SpliceAsWritten`, shown by `StaleSiblingParent`), not through the whole sweep.
- RemoveParabola: on a beachline where the arc lacks a neighbour, the model returns `MissingNeighbour` where the source's `unwrap` would panic. Within the sweep this cannot happen: every queued circle event's arc has an arc on either side (`CirclesLive`), so `SweepEvent` fails only with `Collinear`.
- FortunesAlgorithm: that a queued circle event's sites are never collinear is not proved, so the error `Collinear` is not excluded even for distinct input sites.
- RemoveParabola: the source unwraps the left neighbour (`lib.rs:75`) before it looks up the right one (`lib.rs:76`). The model looks both up and then tests both. Both lookups are pure, so the outcome is the same.
- Pop: the queue's internals (an external crate) are not modelled. Which of several equal-priority entries comes out is left open.
  - The two-site test with both sites at height 500 thus has two possible pop orders. The test lemmas take the order given in the input; the other gives the same breakpoints with the directions exchanged.
- ReplaceBreakpoint: the source's panics (missing neighbour arc, parent or grandparent, or a parent that does not claim its child) are excluded by its `requires`, not modelled as results. It requires xlIdx and xrIdx to be the arc's bounding breakpoints, which is what the circle-event handler passes.
  - TreeSplice.SpliceSetting proves those panics unreachable under that requirement. `SpliceAsWritten` models them as None.
- ReplaceArc: the source's `left_child.unwrap() == arc_idx` is modelled as a comparison with `Some(arc_idx)`. A parent always has both children in a well-formed arena, so the panic cannot occur.
- AddFirstParabola: the source's `assert!` that the beachline is empty is a `requires`.
- ArcAt: the source's panic on a breakpoint entry is a `requires`.
- ExtendEdgesToBoundingBox: the `edges` vector is passed in and returned as a sequence value instead of being pushed onto in place.
- Circumcenter: the panic on collinear points (`geometry.rs:152-154`) is the result None, and the driver reports it as the error `Collinear`.
- The visualization crate (`visualization/src/main.rs`) and the float-tolerant test helpers (`fortunes/src/test_utils.rs`) are not part of this model.
- Commented-out code in the source is not modelled.

## Findings

| source | as written | input that shows it | evidently intended | confidence | as-written member | corrected member |
|---|---|---|---|---|---|---|
| fortunes/src/beachline.rs:210-218 | the grandparent's child slot is re-pointed at p's sibling, but the sibling's `parent` field keeps naming p's old parent, which has left the tree | arcs 1, 3, 5 under breakpoint 2 (the root, children 1 and 4) and breakpoint 4 (children 3 and 5); a circle event on arc 3 with xl = 2 and xr = 4 leaves entry 5's parent at 4, so the predecessor walk from 5 (`beachline.rs:278-287`) answers the detached 4 instead of 2 | the sibling's parent is set to the grandparent | not executed | BeachlineTree.SpliceAsWritten, shown by SpliceFinding.StaleSiblingParent | BeachlineTree.SpliceFixed, proved by TreeSplice.SpliceCorrect and used by BeachlineState.Beachline.SpliceOut |
