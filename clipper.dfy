/**
 One stage of the reentrant (Sutherland-Hodgman) clipper: it reads the
 vertices of a closed polygon boundary from its input stream and writes the
 boundary clipped against one plane to its output stream.

 The specification numbers what a stage emits: for the i-th vertex v_i of an
 n-gon it emits v_i itself if v_i is above the plane, then the crossing of the
 edge v_i -> v_((i+1) mod n) with the plane if there is one. The last edge,
 from the last vertex back to the first, is the closing edge.
 */
module Clipper {
  import opened Geometry
  import opened PointStream

  /** The index of the vertex that follows vertex i on a closed boundary of n vertices. */
  function Next(i: nat, n: nat): (j: nat)
    requires i < n
    ensures j < n
    ensures j == (i + 1) % n
  {
    if i + 1 == n then
      assert (i + 1) % n == 0 by { assert (i + 1) == 1 * n; }
      0
    else
      assert (i + 1) % n == i + 1 by { assert i + 1 == 0 * n + (i + 1); }
      i + 1
  }

  /** One emitted point, with where it comes from: an input vertex, or the crossing of an edge. */
  datatype Emission = Vertex(index: nat, point: Point) | Crossing(edge: nat, point: Point)

  /** Position of an emission in the order of the boundary: vertex i, then edge i, then vertex i + 1. */
  function Rank(e: Emission): nat
  {
    match e
    case Vertex(i, _) => 2 * i
    case Crossing(i, _) => 2 * i + 1
  }

  /** What a stage emits for vertex i and the edge leaving it. */
  function EdgeEmissions(pl: Plane, pts: seq<Point>, i: nat): seq<Emission>
    requires i < |pts|
  {
    (if Above(pts[i], pl) then [Vertex(i, pts[i])] else [])
    + match Intersect(pts[i], pts[Next(i, |pts|)], pl)
      case Some(q) => [Crossing(i, q)]
      case None => []
  }

  /** What a stage emits for the first k vertices and their outgoing edges. */
  function EmissionsUpTo(pl: Plane, pts: seq<Point>, k: nat): seq<Emission>
    requires k <= |pts|
  {
    if k == 0 then [] else EmissionsUpTo(pl, pts, k - 1) + EdgeEmissions(pl, pts, k - 1)
  }

  /** Everything a stage emits for the boundary pts. */
  function Emissions(pl: Plane, pts: seq<Point>): seq<Emission>
  {
    EmissionsUpTo(pl, pts, |pts|)
  }

  /** The points of a sequence of emissions. */
  function Points(es: seq<Emission>): (ps: seq<Point>)
    ensures |ps| == |es|
    ensures forall j :: 0 <= j < |es| ==> ps[j] == es[j].point
  {
    seq(|es|, j requires 0 <= j < |es| => es[j].point)
  }

  lemma PointsAppend(a: seq<Emission>, b: seq<Emission>)
    ensures Points(a + b) == Points(a) + Points(b)
  {
  }

  /** The boundary pts clipped against pl, as one stage streams it. */
  function ClipPolygon(pl: Plane, pts: seq<Point>): seq<Point>
  {
    Points(Emissions(pl, pts))
  }

  /** An emission is justified by the input: a vertex above the plane, or the crossing of an edge. */
  predicate Justified(pl: Plane, pts: seq<Point>, e: Emission)
  {
    match e
    case Vertex(i, p) => i < |pts| && p == pts[i] && Above(p, pl)
    case Crossing(i, q) => i < |pts| && Intersect(pts[i], pts[Next(i, |pts|)], pl) == Some(q)
  }

  /** The concatenation of a sequence of rounds of emissions, in order. */
  function Flatten(parts: seq<seq<Emission>>): (es: seq<Emission>)
    decreases |parts|
  {
    if |parts| == 0 then [] else Flatten(parts[..|parts| - 1]) + parts[|parts| - 1]
  }

  /** An emission is in the concatenation exactly when it is in one of the rounds. */
  lemma {:induction false} FlattenContain(parts: seq<seq<Emission>>, e: Emission)
    ensures e in Flatten(parts) <==> exists i :: 0 <= i < |parts| && e in parts[i]
    decreases |parts|
  {
    if |parts| > 0 {
      var m := |parts| - 1;
      var init := parts[..m];
      FlattenContain(init, e);
      assert Flatten(parts) == Flatten(init) + parts[m];
      if e in parts[m] {
        assert 0 <= m < |parts| && e in parts[m];
      } else if e in Flatten(init) {
        var i :| 0 <= i < m && e in init[i];
        assert 0 <= i < |parts| && e in parts[i];
      } else {
        forall i | 0 <= i < |parts| ensures e !in parts[i] {
          if i < m {
            assert parts[i] == init[i];
          }
        }
      }
    }
  }

  /** Round i holds at most two emissions, in increasing rank, with ranks 2i or 2i + 1. */
  predicate RoundRanked(r: seq<Emission>, i: nat)
  {
    && |r| <= 2
    && (forall j :: 0 <= j < |r| ==> 2 * i <= Rank(r[j]) < 2 * i + 2)
    && (forall j, j' :: 0 <= j < j' < |r| ==> Rank(r[j]) < Rank(r[j']))
  }

  /** The concatenation of ranked rounds is at most twice as long, has ranks below twice the count, and strictly increasing ranks. */
  lemma {:induction false} FlattenShape(parts: seq<seq<Emission>>)
    requires forall i :: 0 <= i < |parts| ==> RoundRanked(parts[i], i)
    ensures |Flatten(parts)| <= 2 * |parts|
    ensures forall j :: 0 <= j < |Flatten(parts)| ==> Rank(Flatten(parts)[j]) < 2 * |parts|
    ensures forall j, j' :: 0 <= j < j' < |Flatten(parts)| ==> Rank(Flatten(parts)[j]) < Rank(Flatten(parts)[j'])
    decreases |parts|
  {
    if |parts| > 0 {
      var m := |parts| - 1;
      var init, last := parts[..m], parts[m];
      assert forall i :: 0 <= i < m ==> init[i] == parts[i];
      FlattenShape(init);
      var prefix := Flatten(init);
      var all := prefix + last;
      assert all == Flatten(parts);
      assert RoundRanked(last, m);
      forall j | 0 <= j < |all|
        ensures if j < |prefix| then Rank(all[j]) < 2 * m else 2 * m <= Rank(all[j]) < 2 * |parts|
      {
        if j < |prefix| {
          assert all[j] == prefix[j];
        } else {
          assert all[j] == last[j - |prefix|];
        }
      }
      forall j, j' | 0 <= j < j' < |all|
        ensures Rank(all[j]) < Rank(all[j'])
      {
        if j' < |prefix| {
          assert all[j] == prefix[j] && all[j'] == prefix[j'];
        } else if |prefix| <= j {
          assert all[j] == last[j - |prefix|] && all[j'] == last[j' - |prefix|];
        }
      }
    }
  }

  /** What a stage emits for each vertex and its outgoing edge, vertex by vertex. */
  function Rounds(pl: Plane, pts: seq<Point>): (rs: seq<seq<Emission>>)
    ensures |rs| == |pts|
    ensures forall i :: 0 <= i < |pts| ==> rs[i] == EdgeEmissions(pl, pts, i)
  {
    seq(|pts|, i requires 0 <= i < |pts| => EdgeEmissions(pl, pts, i))
  }

  /** Emitting round by round is concatenating the rounds. */
  lemma {:induction false} EmissionsUpToFlatten(pl: Plane, pts: seq<Point>, k: nat)
    requires k <= |pts|
    ensures EmissionsUpTo(pl, pts, k) == Flatten(Rounds(pl, pts)[..k])
  {
    if k > 0 {
      EmissionsUpToFlatten(pl, pts, k - 1);
      var r := Rounds(pl, pts)[..k];
      assert r[..k - 1] == Rounds(pl, pts)[..k - 1];
      assert r[k - 1] == EdgeEmissions(pl, pts, k - 1);
    }
  }

  /** What a stage emits for vertex i and its edge is justified, at most two emissions, in the order vertex then crossing. */
  lemma EdgeEmissionsShape(pl: Plane, pts: seq<Point>, i: nat)
    requires i < |pts|
    ensures RoundRanked(EdgeEmissions(pl, pts, i), i)
    ensures forall e :: e in EdgeEmissions(pl, pts, i) ==> Justified(pl, pts, e)
  {
  }

  /** The emissions for the first k vertices are justified, in strictly increasing boundary order, and all belong to them. */
  lemma EmissionsUpToShape(pl: Plane, pts: seq<Point>, k: nat)
    requires k <= |pts|
    ensures |EmissionsUpTo(pl, pts, k)| <= 2 * k
    ensures forall j :: 0 <= j < |EmissionsUpTo(pl, pts, k)| ==>
              Rank(EmissionsUpTo(pl, pts, k)[j]) < 2 * k && Justified(pl, pts, EmissionsUpTo(pl, pts, k)[j])
    ensures forall j, j' :: 0 <= j < j' < |EmissionsUpTo(pl, pts, k)| ==>
              Rank(EmissionsUpTo(pl, pts, k)[j]) < Rank(EmissionsUpTo(pl, pts, k)[j'])
  {
    EmissionsUpToFlatten(pl, pts, k);
    var parts := Rounds(pl, pts)[..k];
    forall i | 0 <= i < |parts| ensures RoundRanked(parts[i], i) {
      EdgeEmissionsShape(pl, pts, i);
    }
    FlattenShape(parts);
    var all := Flatten(parts);
    forall j | 0 <= j < |all| ensures Justified(pl, pts, all[j]) {
      FlattenContain(parts, all[j]);
      var i :| 0 <= i < |parts| && all[j] in parts[i];
      EdgeEmissionsShape(pl, pts, i);
    }
  }

  /** Every emitted point is justified by the input, and emissions follow the order of the boundary. */
  lemma EmissionsOrdered(pl: Plane, pts: seq<Point>)
    ensures forall j :: 0 <= j < |Emissions(pl, pts)| ==> Justified(pl, pts, Emissions(pl, pts)[j])
    ensures forall j, j' :: 0 <= j < j' < |Emissions(pl, pts)| ==>
              Rank(Emissions(pl, pts)[j]) < Rank(Emissions(pl, pts)[j'])
  {
    EmissionsUpToShape(pl, pts, |pts|);
  }

  /** Emissions for vertex i appear exactly when that vertex is handled, and never later. */
  lemma EmissionsUpToContain(pl: Plane, pts: seq<Point>, k: nat, e: Emission)
    requires k <= |pts|
    ensures e in EmissionsUpTo(pl, pts, k) <==> exists i :: 0 <= i < k && e in EdgeEmissions(pl, pts, i)
  {
    EmissionsUpToFlatten(pl, pts, k);
    var parts := Rounds(pl, pts)[..k];
    FlattenContain(parts, e);
    assert forall i :: 0 <= i < k ==> parts[i] == EdgeEmissions(pl, pts, i);
  }

  /** Vertex i is emitted if and only if it is above the plane. */
  lemma VertexEmittedIff(pl: Plane, pts: seq<Point>, i: nat)
    requires i < |pts|
    ensures Vertex(i, pts[i]) in Emissions(pl, pts) <==> Above(pts[i], pl)
  {
    var e := Vertex(i, pts[i]);
    EmissionsUpToContain(pl, pts, |pts|, e);
    if Above(pts[i], pl) {
      assert e in EdgeEmissions(pl, pts, i);
    }
  }

  /** The crossing of edge i is emitted if and only if the edge crosses the plane, and then exactly once. */
  lemma CrossingEmittedIff(pl: Plane, pts: seq<Point>, i: nat)
    requires i < |pts|
    ensures (exists q :: Crossing(i, q) in Emissions(pl, pts))
            <==> Above(pts[i], pl) != Above(pts[Next(i, |pts|)], pl)
    ensures forall j, j' :: 0 <= j < j' < |Emissions(pl, pts)| && Emissions(pl, pts)[j].Crossing? && Emissions(pl, pts)[j].edge == i
              ==> !(Emissions(pl, pts)[j'].Crossing? && Emissions(pl, pts)[j'].edge == i)
  {
    EmissionsOrdered(pl, pts);
    var es := Emissions(pl, pts);
    match Intersect(pts[i], pts[Next(i, |pts|)], pl)
    case Some(q) =>
      EmissionsUpToContain(pl, pts, |pts|, Crossing(i, q));
      assert Crossing(i, q) in EdgeEmissions(pl, pts, i);
    case None =>
  }

  /** A stage emits at most two points per input vertex. */
  lemma ClipLength(pl: Plane, pts: seq<Point>)
    ensures |ClipPolygon(pl, pts)| <= 2 * |pts|
  {
    EmissionsUpToShape(pl, pts, |pts|);
  }

  /** When every vertex is above the plane the boundary passes through unchanged. */
  lemma {:induction false} ClipAllAbove(pl: Plane, pts: seq<Point>)
    requires forall i :: 0 <= i < |pts| ==> Above(pts[i], pl)
    ensures ClipPolygon(pl, pts) == pts
  {
    forall k | 0 <= k <= |pts|
      ensures Points(EmissionsUpTo(pl, pts, k)) == pts[..k]
    {
      AllAboveUpTo(pl, pts, k);
    }
    assert pts[..|pts|] == pts;
  }

  lemma {:induction false} AllAboveUpTo(pl: Plane, pts: seq<Point>, k: nat)
    requires k <= |pts|
    requires forall i :: 0 <= i < |pts| ==> Above(pts[i], pl)
    ensures Points(EmissionsUpTo(pl, pts, k)) == pts[..k]
  {
    if k > 0 {
      AllAboveUpTo(pl, pts, k - 1);
      assert EdgeEmissions(pl, pts, k - 1) == [Vertex(k - 1, pts[k - 1])];
      PointsAppend(EmissionsUpTo(pl, pts, k - 1), EdgeEmissions(pl, pts, k - 1));
      assert pts[..k] == pts[..k - 1] + [pts[k - 1]];
    }
  }

  /** When no vertex is above the plane nothing is emitted. */
  lemma {:induction false} ClipNoneAbove(pl: Plane, pts: seq<Point>)
    requires forall i :: 0 <= i < |pts| ==> !Above(pts[i], pl)
    ensures ClipPolygon(pl, pts) == []
  {
    EmissionsUpToShape(pl, pts, |pts|);
    if |Emissions(pl, pts)| > 0 {
      var e := Emissions(pl, pts)[0];
      assert Justified(pl, pts, e);
    }
  }

  /** A lone vertex is its own closing edge, which never crosses: it survives exactly when it is above. */
  lemma ClipSingleVertex(pl: Plane, v: Point)
    ensures ClipPolygon(pl, [v]) == if Above(v, pl) then [v] else []
  {
    IntersectSelf(v, pl);
    assert EmissionsUpTo(pl, [v], 1) == EmissionsUpTo(pl, [v], 0) + EdgeEmissions(pl, [v], 0);
  }

  /**
   The closing edge from the last vertex back to the first is handled once, at
   the end: its crossing, when there is one, is the last point emitted.
   */
  lemma ClosingEdgeLast(pl: Plane, pts: seq<Point>)
    requires |pts| > 0
    ensures var es := Emissions(pl, pts);
            match Intersect(pts[|pts| - 1], pts[0], pl)
            case Some(q) => |es| > 0 && es[|es| - 1] == Crossing(|pts| - 1, q)
                            && ClipPolygon(pl, pts)[|es| - 1] == q
            case None => forall e :: e in es ==> !(e.Crossing? && e.edge == |pts| - 1)
  {
    var n := |pts|;
    EmissionsUpToShape(pl, pts, n - 1);
    var prefix := EmissionsUpTo(pl, pts, n - 1);
    assert Emissions(pl, pts) == prefix + EdgeEmissions(pl, pts, n - 1);
    assert forall e :: e in prefix ==> Rank(e) < 2 * (n - 1);
  }

  /** Every point a stage emits is on or above its plane. */
  lemma ClipInsideHalfSpace(pl: Plane, pts: seq<Point>)
    ensures forall q :: q in ClipPolygon(pl, pts) ==> Eval(q, pl) >= 0.0
  {
    EmissionsOrdered(pl, pts);
    var es := Emissions(pl, pts);
    forall q | q in ClipPolygon(pl, pts) ensures Eval(q, pl) >= 0.0 {
      var j :| 0 <= j < |es| && ClipPolygon(pl, pts)[j] == q;
      assert Justified(pl, pts, es[j]);
      if es[j].Crossing? {
        var i := es[j].edge;
        CrossingOnPlane(pts[i], pts[Next(i, |pts|)], pl);
      }
    }
  }

  /** A stage keeps a polygon inside any closed half-space that already holds all of its vertices. */
  lemma ClipKeepsHalfSpace(pl: Plane, pts: seq<Point>, h: Plane)
    requires forall p :: p in pts ==> Eval(p, h) >= 0.0
    ensures forall q :: q in ClipPolygon(pl, pts) ==> Eval(q, h) >= 0.0
  {
    EmissionsOrdered(pl, pts);
    var es := Emissions(pl, pts);
    forall q | q in ClipPolygon(pl, pts) ensures Eval(q, h) >= 0.0 {
      var j :| 0 <= j < |es| && ClipPolygon(pl, pts)[j] == q;
      assert Justified(pl, pts, es[j]);
      if es[j].Crossing? {
        var i := es[j].edge;
        CrossingInHalfSpace(pts[i], pts[Next(i, |pts|)], pl, h);
      }
    }
  }

  /** The index of the vertex before vertex i on a closed boundary of n vertices. */
  function Prev(i: nat, n: nat): (j: nat)
    requires i < n
    ensures j < n && Next(j, n) == i
  {
    if i == 0 then n - 1 else i - 1
  }

  /** Every justified emission is emitted, and this gives its position. */
  lemma EmittedAt(pl: Plane, pts: seq<Point>, e: Emission) returns (m: nat)
    requires Justified(pl, pts, e)
    ensures m < |Emissions(pl, pts)| && Emissions(pl, pts)[m] == e
  {
    var i := if e.Vertex? then e.index else e.edge;
    EmissionsUpToContain(pl, pts, |pts|, e);
    assert e in EdgeEmissions(pl, pts, i);
    m :| 0 <= m < |Emissions(pl, pts)| && Emissions(pl, pts)[m] == e;
  }

  /** Between a vertex on one side and a later vertex on the other there is an edge where the side changes. */
  lemma {:induction false} SideChange(pl: Plane, pts: seq<Point>, a: nat, b: nat) returns (k: nat)
    requires a < b < |pts| && Above(pts[a], pl) != Above(pts[b], pl)
    ensures a <= k < b
    ensures Above(pts[k], pl) == Above(pts[a], pl) && Above(pts[k + 1], pl) == Above(pts[b], pl)
    decreases b - a
  {
    if Above(pts[a + 1], pl) == Above(pts[b], pl) {
      k := a;
    } else {
      k := SideChange(pl, pts, a + 1, b);
    }
  }

  /**
   Walking round the boundary from vertex a to vertex b on the other side, some
   edge changes side: one of a, ..., b - 1 when a < b, otherwise one from a to
   the end or from the start to b - 1.
   */
  lemma CyclicSideChange(pl: Plane, pts: seq<Point>, a: nat, b: nat) returns (k: nat)
    requires a < |pts| && b < |pts| && Above(pts[a], pl) != Above(pts[b], pl)
    ensures k < |pts|
    ensures Above(pts[k], pl) == Above(pts[a], pl) && Above(pts[Next(k, |pts|)], pl) == Above(pts[b], pl)
    ensures if a < b then a <= k < b else a <= k || k < b
  {
    var n := |pts|;
    if a < b {
      k := SideChange(pl, pts, a, b);
    } else if Above(pts[n - 1], pl) != Above(pts[a], pl) {
      k := SideChange(pl, pts, a, n - 1);
    } else if Above(pts[0], pl) == Above(pts[b], pl) {
      k := n - 1;
    } else {
      k := SideChange(pl, pts, 0, b);
    }
  }

  /**
   A crossing where the boundary leaves the half-space comes right after the
   vertex it leaves from, and the next point emitted is another crossing.
   */
  lemma ExitShape(pl: Plane, pts: seq<Point>, j: nat)
    requires j < |Emissions(pl, pts)|
    requires Emissions(pl, pts)[j].Crossing? && Emissions(pl, pts)[j].edge < |pts|
    requires Above(pts[Emissions(pl, pts)[j].edge], pl)
    ensures 0 < j && Emissions(pl, pts)[j - 1] == Vertex(Emissions(pl, pts)[j].edge, pts[Emissions(pl, pts)[j].edge])
    ensures Emissions(pl, pts)[Next(j, |Emissions(pl, pts)|)].Crossing?
  {
    var es, n := Emissions(pl, pts), |pts|;
    EmissionsOrdered(pl, pts);
    assert Justified(pl, pts, es[j]);
    var i := es[j].edge;
    var m := EmittedAt(pl, pts, Vertex(i, pts[i]));
    assert Rank(es[m]) < Rank(es[j]);
    var s := Next(j, |es|);
    if es[s].Vertex? {
      assert Justified(pl, pts, es[s]);
      var b := es[s].index;
      var k := CyclicSideChange(pl, pts, Next(i, n), b);
      var mc := EmittedAt(pl, pts, Crossing(k, Intersect(pts[k], pts[Next(k, n)], pl).value));
    }
  }

  /**
   A crossing where the boundary enters the half-space comes right after
   another crossing, and the next point emitted is the vertex it enters at.
   */
  lemma EnterShape(pl: Plane, pts: seq<Point>, j: nat)
    requires j < |Emissions(pl, pts)|
    requires Emissions(pl, pts)[j].Crossing? && Emissions(pl, pts)[j].edge < |pts|
    requires !Above(pts[Emissions(pl, pts)[j].edge], pl)
    ensures Emissions(pl, pts)[Prev(j, |Emissions(pl, pts)|)].Crossing?
    ensures var b := Next(Emissions(pl, pts)[j].edge, |pts|);
            Emissions(pl, pts)[Next(j, |Emissions(pl, pts)|)] == Vertex(b, pts[b])
  {
    var es, n := Emissions(pl, pts), |pts|;
    EmissionsOrdered(pl, pts);
    assert Justified(pl, pts, es[j]);
    var i := es[j].edge;
    var b := Next(i, n);
    var m := EmittedAt(pl, pts, Vertex(b, pts[b]));
    if b == i + 1 {
      assert j < m;
    }
    var p := Prev(j, |es|);
    if es[p].Vertex? {
      assert Justified(pl, pts, es[p]);
      var a := es[p].index;
      var k := CyclicSideChange(pl, pts, a, i);
      var mc := EmittedAt(pl, pts, Crossing(k, Intersect(pts[k], pts[Next(k, n)], pl).value));
    }
  }

  /**
   The shape of a clipped boundary: all its points are on or above the plane,
   and each point on the plane has exactly one neighbour above it, the one
   before it or (then also for the first point) the one after it. So the first
   point is never on the plane with only its wrap-around predecessor, the last
   point, above it: re-clipping such a boundary would rotate it.
   */
  predicate Settled(pl: Plane, w: seq<Point>)
  {
    forall j :: 0 <= j < |w| ==> SettledAt(pl, w, j)
  }

  predicate SettledAt(pl: Plane, w: seq<Point>, j: nat)
    requires j < |w|
  {
    && Eval(w[j], pl) >= 0.0
    && (!Above(w[j], pl) ==>
         || (0 < j && Above(w[j - 1], pl) && !Above(w[Next(j, |w|)], pl))
         || (!Above(w[Prev(j, |w|)], pl) && Above(w[Next(j, |w|)], pl)))
  }

  /** A stage's output has the settled shape. */
  lemma ClipSettled(pl: Plane, pts: seq<Point>)
    ensures Settled(pl, ClipPolygon(pl, pts))
  {
    var es, w := Emissions(pl, pts), ClipPolygon(pl, pts);
    ClipInsideHalfSpace(pl, pts);
    EmissionsOrdered(pl, pts);
    forall j | 0 <= j < |w|
      ensures SettledAt(pl, w, j)
    {
      assert w[j] in w;
      assert Justified(pl, pts, es[j]);
      var i := if es[j].Crossing? then es[j].edge else 0;
      if es[j].Vertex? {
      } else if Above(pts[i], pl) {
        ExitShape(pl, pts, j);
        var s := Next(j, |w|);
        assert Justified(pl, pts, es[s]);
        CrossingOnPlane(pts[es[s].edge], pts[Next(es[s].edge, |pts|)], pl);
      } else {
        EnterShape(pl, pts, j);
        var p := Prev(j, |w|);
        assert Justified(pl, pts, es[p]);
        CrossingOnPlane(pts[es[p].edge], pts[Next(es[p].edge, |pts|)], pl);
      }
    }
  }

  /** The point on the plane that is still owed after the first k points of a settled boundary have been re-clipped. */
  function Pending(pl: Plane, w: seq<Point>, k: nat): seq<Point>
    requires k <= |w|
  {
    if 0 < k < |w| && Above(w[k - 1], pl) && !Above(w[k], pl) then [w[k]] else []
  }

  /** What re-clipping emits for one point of a settled boundary and the edge after it. */
  lemma SettledEdge(pl: Plane, w: seq<Point>, j: nat)
    requires j < |w| && Eval(w[j], pl) >= 0.0 && Eval(w[Next(j, |w|)], pl) >= 0.0
    ensures var nx := Next(j, |w|);
            Points(EdgeEmissions(pl, w, j))
            == if Above(w[j], pl) then [w[j]] + (if Above(w[nx], pl) then [] else [w[nx]])
               else if Above(w[nx], pl) then [w[j]] else []
  {
    var nx := Next(j, |w|);
    if Above(w[j], pl) && !Above(w[nx], pl) {
      IntersectOntoPlane(w[j], w[nx], pl);
    } else if !Above(w[j], pl) && Above(w[nx], pl) {
      IntersectFromPlane(w[j], w[nx], pl);
    }
  }

  /** Re-clipping point j of a settled boundary settles what was pending before it, emits it once, and leaves what is pending after it. */
  lemma SettledStep(pl: Plane, w: seq<Point>, j: nat)
    requires Settled(pl, w) && j < |w|
    ensures Pending(pl, w, j) + Points(EdgeEmissions(pl, w, j)) == [w[j]] + Pending(pl, w, j + 1)
  {
    var nx := Next(j, |w|);
    assert SettledAt(pl, w, j) && SettledAt(pl, w, nx);
    assert SettledAt(pl, w, 0);
    SettledEdge(pl, w, j);
  }

  /** Re-clipping the first k points of a settled boundary gives them back, plus the point on the plane still owed after them. */
  lemma {:induction false} SettledUpTo(pl: Plane, w: seq<Point>, k: nat)
    requires Settled(pl, w) && k <= |w|
    ensures Points(EmissionsUpTo(pl, w, k)) == w[..k] + Pending(pl, w, k)
  {
    if k > 0 {
      var j := k - 1;
      SettledUpTo(pl, w, j);
      SettledStep(pl, w, j);
      var done, edge := Points(EmissionsUpTo(pl, w, j)), Points(EdgeEmissions(pl, w, j));
      calc {
        Points(EmissionsUpTo(pl, w, k));
        { PointsAppend(EmissionsUpTo(pl, w, j), EdgeEmissions(pl, w, j)); }
        done + edge;
        w[..j] + Pending(pl, w, j) + edge;
        w[..j] + (Pending(pl, w, j) + edge);
        w[..j] + ([w[j]] + Pending(pl, w, k));
        { assert w[..k] == w[..j] + [w[j]]; }
        w[..k] + Pending(pl, w, k);
      }
    }
  }

  /** Re-clipping a settled boundary against the same plane gives it back unchanged. */
  lemma SettledFixed(pl: Plane, w: seq<Point>)
    requires Settled(pl, w)
    ensures ClipPolygon(pl, w) == w
  {
    SettledUpTo(pl, w, |w|);
    assert w[..|w|] == w;
  }

  /** Clipping twice against the same plane is the same as clipping once. */
  lemma ClipIdempotent(pl: Plane, pts: seq<Point>)
    ensures ClipPolygon(pl, ClipPolygon(pl, pts)) == ClipPolygon(pl, pts)
  {
    ClipSettled(pl, pts);
    SettledFixed(pl, ClipPolygon(pl, pts));
  }

  /** What a stage sends for its current vertex p: p itself if it is above the plane. */
  function VertexSends(pl: Plane, p: Point): seq<Event>
  {
    if Above(p, pl) then [Send(p)] else []
  }

  /** What a stage sends for the edge p1 -> p2: its crossing, if it has one. */
  function CrossingSends(pl: Plane, p1: Point, p2: Point): seq<Event>
  {
    match Intersect(p1, p2, pl)
    case Some(q) => [Send(q)]
    case None => []
  }

  /** The stream of the first k + 1 rounds extends that of the first k by round k's vertex and crossing. */
  lemma RoundSends(pl: Plane, pts: seq<Point>, k: nat)
    requires k < |pts|
    ensures Sends(Points(EmissionsUpTo(pl, pts, k + 1)))
            == Sends(Points(EmissionsUpTo(pl, pts, k))) + VertexSends(pl, pts[k]) + CrossingSends(pl, pts[k], pts[Next(k, |pts|)])
  {
    PointsAppend(EmissionsUpTo(pl, pts, k), EdgeEmissions(pl, pts, k));
    SendsAppend(Points(EmissionsUpTo(pl, pts, k)), Points(EdgeEmissions(pl, pts, k)));
  }

  /**
   One clipping stage. It offers on its input: an immediate close means an
   empty polygon, and it closes its output. Otherwise it remembers the first
   vertex pt0, and for the current vertex pt it sends pt if pt is above the
   plane and offers again: on a next vertex pt2 it sends the crossing of
   pt -> pt2 if any and moves on to pt2; on close it sends the crossing of the
   closing edge pt -> pt0 if any and closes its output.
   */
  method Clip(pl: Plane, input: seq<Event>) returns (output: seq<Event>)
    requires WellFormed(input)
    ensures output == Stream(ClipPolygon(pl, Received(input)))
  {
    ghost var pts := Received(input);
    output := [];
    match input[0]
    case Close =>
      assert pts == [];
      output := output + [Close];
    case Send(pt0) =>
      var pos := 1;
      var pt := pt0;
      while true
        invariant 1 <= pos <= |pts|
        invariant pt0 == pts[0]
        invariant pt == pts[pos - 1]
        invariant output == Sends(Points(EmissionsUpTo(pl, pts, pos - 1)))
        decreases |input| - pos
      {
        ghost var prior := output;
        RoundSends(pl, pts, pos - 1);
        if Above(pt, pl) {
          output := output + [Send(pt)];
        }
        assert output == prior + VertexSends(pl, pt);
        match input[pos]
        case Close =>
          assert pos == |pts| && Next(pos - 1, |pts|) == 0;
          match Intersect(pt, pt0, pl) {
            case Some(q) => output := output + [Send(q)];
            case None =>
          }
          assert output == prior + VertexSends(pl, pt) + CrossingSends(pl, pt, pt0);
          assert output == Sends(ClipPolygon(pl, pts));
          output := output + [Close];
          break;
        case Send(pt2) =>
          assert Next(pos - 1, |pts|) == pos && pts[pos] == pt2;
          match Intersect(pt, pt2, pl) {
            case Some(q) => output := output + [Send(q)];
            case None =>
          }
          assert output == prior + VertexSends(pl, pt) + CrossingSends(pl, pt, pt2);
          pt := pt2;
          pos := pos + 1;
      }
  }
}
