# Reentrant plane clipping, modelled in Dafny

This project models the planeclip example of the session-types repository. The example implements the Sutherland-Hodgman (1974) reentrant polygon-clipping algorithm as a streaming pipeline:

- a producer streams the vertices of a closed polygon boundary;
- one clipping stage per plane reads the stream of the stage before it and writes the boundary clipped against its plane;
- a consumer collects the last stream into a list.

The model has four modules:

- `Geometry` (`geometry.dfy`): points, oriented planes, the strict "above" test and the edge/plane intersection. Coordinates are exact reals.
- `PointStream` (`point_stream.dfy`): the point-stream protocol. A channel is its observable trace, a sequence of `Send(p) | Close` events. `WellFormed` says a trace is zero or more sends followed by exactly one close. The producer and the consumer are loops over that trace.
- `Clipper` (`clipper.dfy`): one clipping stage, written as a loop over its input trace. It keeps the first vertex and the current vertex and appends to its output trace. It is proved equal to a pure specification. For vertex `i` of an n-gon, the stage emits `v_i` if it is above the plane, then the crossing of the edge `v_i -> v_((i+1) mod n)` if there is one. Each emission carries its origin (`Vertex(i, p)` or `Crossing(i, q)`), so the order and the iff properties can be stated exactly.
- `Pipeline` (`pipeline.dfy`): the assembler. It pops planes from the end of the list and chains one stage per plane, so the last plane is applied first.

A stage emits its current vertex, if it is above the plane, at the top of every loop round (examples/planeclip.rs:104-106), before it offers on its input again. So the last vertex is emitted before the crossing of the closing edge.

## Model

| member | source | states |
|---|---|---|
| Geometry.AboveIgnoresNormalisation | examples/planeclip.rs:26-28 | Dividing the plane's expression by the positive length of its normal does not change the above test, so above means the expression is strictly positive, and points on the plane are not above |
| Geometry.Intersect | examples/planeclip.rs:30-45 | The intersection is None exactly when the two end points are on the same side of the plane (both above, or both not above) |
| Geometry.CrossingParameter | examples/planeclip.rs:38-39 | When the end points are on different sides, the crossing parameter's denominator is non-zero and the parameter lies in [0, 1], so the crossing lies on the segment |
| Geometry.IntersectSelf | examples/planeclip.rs:35-36 | A degenerate edge from a point to itself never crosses, which settles the closing edge of a one-vertex polygon |
| Geometry.CrossingOnPlane | examples/planeclip.rs:38-43 | The computed crossing point lies exactly on the plane and is therefore not above it |
| Geometry.IntersectFromPlane | examples/planeclip.rs:35-43 | An edge that starts on the plane and ends above it crosses at its start point |
| Geometry.IntersectOntoPlane | examples/planeclip.rs:35-43 | An edge that starts above the plane and ends on it crosses at its end point |
| Geometry.MidpointCrossing | examples/planeclip.rs:38-43 | An edge whose end points are equally far from the plane on either side crosses it at its midpoint |
| Geometry.EvalLerp | examples/planeclip.rs:40-42 | The plane's expression is affine along the interpolated edge |
| Geometry.HalfSpaceConvex | examples/planeclip.rs:40-42 | A point interpolated between two points on or above a plane is on or above it too |
| Geometry.CrossingInHalfSpace | examples/planeclip.rs:38-43 | The crossing of an edge whose end points lie in a closed half-space lies in that half-space |
| PointStream.Stream | examples/planeclip.rs:47 | The trace of sending a list and closing is well formed: one send per point, then exactly one close |
| PointStream.Received | examples/planeclip.rs:47 | The points carried by a well-formed trace are its sends, in order |
| PointStream.SendList | examples/planeclip.rs:49-59 | The producer sends every point of the list in order and then closes once |
| PointStream.RecvList | examples/planeclip.rs:61-82 | The consumer returns exactly the points of the trace, in arrival order, stopping at the close |
| PointStream.ReceivedStream | examples/planeclip.rs:54-58 | Receiving what was sent gives back the same sequence in the same order |
| PointStream.StreamReceived | examples/planeclip.rs:67-79 | Every well-formed trace is the stream of the points it carries |
| PointStream.ClosesOnce | examples/planeclip.rs:47 | A well-formed trace has its close at its end and nowhere else |
| Clipper.Clip | examples/planeclip.rs:84-130 | One stage turns a well-formed input trace into the stream of the clipped boundary. An input that closes at once yields an output that closes at once |
| Clipper.Next | examples/planeclip.rs:109-120 | The vertex after vertex i is vertex (i + 1) mod n: the next one received, or the remembered first vertex for the closing edge |
| Clipper.EdgeEmissionsShape | examples/planeclip.rs:104-123 | One round emits at most two points, the vertex before the crossing, each justified by the input |
| Clipper.RoundSends | examples/planeclip.rs:103-125 | Each loop round extends the output by the current vertex if it is above, then the crossing of the edge it starts, if any |
| Clipper.SettledEdge | examples/planeclip.rs:104-123 | On a boundary inside the closed half-space, a round re-emits its vertex when it or the next vertex is above, and adds the next vertex when the edge comes down onto the plane |
| Clipper.EmissionsOrdered | examples/planeclip.rs:104-124 | Every emission is a vertex above the plane or the crossing of its edge. Emissions follow boundary order: vertex i, then edge i's crossing, then everything for vertex i+1 |
| Clipper.EmissionsUpToShape | examples/planeclip.rs:103-126 | After the first k rounds, at most 2k points are emitted, all justified, all belonging to those rounds, in strictly increasing boundary order |
| Clipper.EmissionsUpToContain | examples/planeclip.rs:103-126 | An emission appears in the first k rounds exactly when one of those rounds produces it |
| Clipper.VertexEmittedIff | examples/planeclip.rs:104-106 | Input vertex i is emitted if and only if it is above the plane |
| Clipper.CrossingEmittedIff | examples/planeclip.rs:117-123 | The crossing of edge i is emitted if and only if its end points are on different sides, and at most once |
| Clipper.ClosingEdgeLast | examples/planeclip.rs:107-115 | The closing edge from the last vertex back to the first is handled once: its crossing, if any, is the last point emitted, and otherwise no crossing of that edge is emitted |
| Clipper.ClipLength | examples/planeclip.rs:104-124 | A stage emits at most two points per input vertex |
| Clipper.ClipAllAbove | examples/planeclip.rs:104-124 | When every vertex is above the plane the boundary passes through unchanged |
| Clipper.ClipNoneAbove | examples/planeclip.rs:104-124 | When no vertex is above the plane nothing is emitted |
| Clipper.ClipSingleVertex | examples/planeclip.rs:99-115 | A one-vertex polygon comes out as itself if it is above the plane and as nothing otherwise |
| Clipper.ClipInsideHalfSpace | examples/planeclip.rs:104-123 | Every point a stage emits is on or above its plane |
| Clipper.ClipKeepsHalfSpace | examples/planeclip.rs:104-123 | A stage keeps a polygon inside any closed half-space that already holds all its vertices |
| Clipper.EmittedAt | examples/planeclip.rs:104-123 | Every vertex above the plane and every crossing of an edge appears somewhere in the output |
| Clipper.ExitShape | examples/planeclip.rs:104-123 | The crossing where the boundary leaves the half-space comes right after the vertex it leaves from and is followed by another crossing |
| Clipper.EnterShape | examples/planeclip.rs:104-123 | The crossing where the boundary enters the half-space follows another crossing and comes right before the vertex it enters at |
| Clipper.ClipSettled | examples/planeclip.rs:84-130 | A stage's output lies in the closed half-space, and each of its points on the plane has exactly one neighbour above it, the one before it or the one after it. The first point is never on the plane with only its wrap-around predecessor, the last point, above it |
| Clipper.SettledFixed | examples/planeclip.rs:84-130 | Re-clipping a boundary of that shape against the same plane returns it unchanged |
| Clipper.ClipIdempotent | examples/planeclip.rs:84-130 | Clipping twice against the same plane gives the same boundary as clipping once |
| Clipper.SideChange | examples/planeclip.rs:117-123 | Between two vertices on different sides some consecutive edge changes side |
| Clipper.CyclicSideChange | examples/planeclip.rs:107-123 | Going round the closed boundary, including the closing edge, from one vertex to a vertex on the other side, some edge changes side |
| Pipeline.ClipMany | examples/planeclip.rs:132-148 | The assembler's result is the input clipped by every plane, the last plane of the list first |
| Pipeline.ClipAllFirstPlaneLast | examples/planeclip.rs:137-147 | The first plane of the list is applied last, to the result of all the others |
| Pipeline.ClipAllNoPlanes | examples/planeclip.rs:137-147 | With no planes the points come back unchanged |
| Pipeline.ClipAllEmpty | examples/planeclip.rs:94-98 | An empty polygon stays empty through any number of stages |
| Pipeline.ClipAllLength | examples/planeclip.rs:137-147 | Each stage at most doubles the number of points |
| Pipeline.ClipAllInside | examples/planeclip.rs:137-147 | Every point of the result is on or above every plane of the list |
| Pipeline.InsideStaysInside | examples/planeclip.rs:137-147 | Later stages keep a polygon inside a closed half-space that already holds it |
| Pipeline.ClipAllAllAbove | examples/planeclip.rs:137-147 | A polygon strictly above every plane comes out unchanged |

## Left out

- Floating-point arithmetic: `above` and `intersect` are modelled on exact reals. Rounding, non-finite results and an almost-zero denominator of the crossing parameter are not modelled. Every Geometry lemma holds for the real-number formulas, not necessarily for their 64-bit evaluation.
- Clipper.ClipInsideHalfSpace: holds for exact arithmetic only; a crossing computed in 64-bit floats can evaluate slightly below the plane.
- Clipper.ClipKeepsHalfSpace: holds for exact arithmetic only, because it rests on the exact convexity of the half-space.
- Clipper.ClipSettled: holds for exact arithmetic only, because it needs every crossing to lie exactly on the plane.
- Clipper.SettledFixed: holds for exact arithmetic only, because re-clipping in floats can drop a crossing that rounds to below the plane.
- Clipper.ClipIdempotent: holds for exact arithmetic only; in 64-bit floats clipping twice equals clipping once only up to rounding.
- Pipeline.ClipAllInside: holds for exact arithmetic only, for the same reason as Clipper.ClipInsideHalfSpace.
- Pipeline.InsideStaysInside: holds for exact arithmetic only, for the same reason as Clipper.ClipKeepsHalfSpace.
- The square root in `above` is replaced by any positive normal length (`AboveIgnoresNormalisation`). A plane with a zero normal is not given a separate meaning. Under IEEE division the test still agrees with "the plane's expression is positive" there, and `intersect` then always returns None.
- Threads, channels and rendezvous (`spawn`, `std::sync::mpsc`): stages run one after the other on complete traces. Each stage's output depends only on its input trace, so this gives the result of any interleaving. Backpressure and blocking are not modelled.
- The session-types library (`Chan`, `accept`, `request`, `enter`, `offer`, `sel1`/`sel2`, `zero`, `close`) is not part of this model. Its protocol is represented only by the trace it allows, checked by `WellFormed`. Its linearity (single-use handles) is not modelled.
- The benchmark harness (`normalize_point`, `normalize_plane`, `bench`, `main`, random generation, printing) is left out. It is input generation and output, not clipping.
- Independence of the final region from the order of the planes is not proved. The model proves only that the order of application is the reverse of the list order, and that the result lies inside every plane's half-space whatever the order.
