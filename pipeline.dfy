/**
 The pipeline: a producer streams the polygon's vertices, one clipping stage
 per plane reads the previous stage's stream and writes its own, and a
 consumer collects the last stream.

 The stages run one after the other here. Each stage's output is a function of
 its input trace alone, so this order gives the result of any interleaving.
 */
module Pipeline {
  import opened Geometry
  import opened PointStream
  import opened Clipper

  /**
   The polygon after clipping against every plane. The planes are taken from
   the end of the list, so the last plane is applied first and the first plane
   last.
   */
  function ClipAll(planes: seq<Plane>, pts: seq<Point>): seq<Point>
    decreases |planes|
  {
    if planes == [] then pts
    else ClipAll(planes[..|planes| - 1], ClipPolygon(planes[|planes| - 1], pts))
  }

  /** The first plane in the list is the last one applied. */
  lemma {:induction false} ClipAllFirstPlaneLast(p: Plane, planes: seq<Plane>, pts: seq<Point>)
    ensures ClipAll([p] + planes, pts) == ClipPolygon(p, ClipAll(planes, pts))
    decreases |planes|
  {
    if planes != [] {
      var n := |planes|;
      assert ([p] + planes)[..n] == [p] + planes[..n - 1];
      ClipAllFirstPlaneLast(p, planes[..n - 1], ClipPolygon(planes[n - 1], pts));
    }
  }

  /** With no planes the pipeline passes the polygon through unchanged. */
  lemma ClipAllNoPlanes(pts: seq<Point>)
    ensures ClipAll([], pts) == pts
  {
  }

  /** An empty polygon stays empty through any number of stages. */
  lemma {:induction false} ClipAllEmpty(planes: seq<Plane>)
    ensures ClipAll(planes, []) == []
    decreases |planes|
  {
    if planes != [] {
      assert Emissions(planes[|planes| - 1], []) == [];
      ClipAllEmpty(planes[..|planes| - 1]);
    }
  }

  function Pow2(k: nat): (r: nat)
    ensures r >= 1
  {
    if k == 0 then 1 else 2 * Pow2(k - 1)
  }

  /** Each stage at most doubles the number of points. */
  lemma {:induction false} ClipAllLength(planes: seq<Plane>, pts: seq<Point>)
    ensures |ClipAll(planes, pts)| <= Pow2(|planes|) * |pts|
    decreases |planes|
  {
    if planes != [] {
      var n := |planes|;
      var once := ClipPolygon(planes[n - 1], pts);
      ClipLength(planes[n - 1], pts);
      ClipAllLength(planes[..n - 1], once);
      DoublingBound(Pow2(n - 1), |ClipAll(planes[..n - 1], once)|, |once|, |pts|);
    }
  }

  /** If a <= k * m and m <= 2 * p then a <= (2 * k) * p. */
  lemma DoublingBound(k: nat, a: nat, m: nat, p: nat)
    requires a <= k * m && m <= 2 * p
    ensures a <= (2 * k) * p
  {
    assert k * m <= k * (2 * p);
  }

  /** Every point of the result lies on or above every plane of the pipeline. */
  lemma {:induction false} ClipAllInside(planes: seq<Plane>, pts: seq<Point>)
    ensures forall q, pl :: q in ClipAll(planes, pts) && pl in planes ==> Eval(q, pl) >= 0.0
    decreases |planes|
  {
    if planes != [] {
      var n := |planes|;
      var last, rest := planes[n - 1], planes[..n - 1];
      var once := ClipPolygon(last, pts);
      ClipInsideHalfSpace(last, pts);
      InsideStaysInside(rest, once, last);
      if rest == [] {
        assert planes == [last];
      } else {
        ClipAllInside(rest, once);
        assert forall pl :: pl in planes ==> pl in rest || pl == last;
      }
    }
  }

  /** Later stages keep the polygon inside a closed half-space that already holds it. */
  lemma {:induction false} InsideStaysInside(planes: seq<Plane>, pts: seq<Point>, h: Plane)
    requires forall p :: p in pts ==> Eval(p, h) >= 0.0
    ensures forall q :: q in ClipAll(planes, pts) ==> Eval(q, h) >= 0.0
    decreases |planes|
  {
    if planes != [] {
      var n := |planes|;
      ClipKeepsHalfSpace(planes[n - 1], pts, h);
      InsideStaysInside(planes[..n - 1], ClipPolygon(planes[n - 1], pts), h);
    }
  }

  /** A polygon strictly above every plane comes out unchanged. */
  lemma {:induction false} ClipAllAllAbove(planes: seq<Plane>, pts: seq<Point>)
    requires forall pl, i :: pl in planes && 0 <= i < |pts| ==> Above(pts[i], pl)
    ensures ClipAll(planes, pts) == pts
    decreases |planes|
  {
    if planes != [] {
      var n := |planes|;
      assert planes[n - 1] in planes;
      ClipAllAbove(planes[n - 1], pts);
      forall pl, i | pl in planes[..n - 1] && 0 <= i < |pts| ensures Above(pts[i], pl) {
        assert pl in planes;
      }
      ClipAllAllAbove(planes[..n - 1], pts);
    }
  }

  /**
   The assembler: start the producer on the points, then pop planes from the
   end of the list and chain one stage per plane onto the current stream, and
   finally collect the last stream.
   */
  method ClipMany(planes: seq<Plane>, points: seq<Point>) returns (result: seq<Point>)
    ensures result == ClipAll(planes, points)
  {
    var rx := SendList(points);
    ReceivedStream(points);
    var remaining := planes;
    while true
      invariant WellFormed(rx)
      invariant ClipAll(remaining, Received(rx)) == ClipAll(planes, points)
      decreases |remaining|
    {
      if remaining == [] {
        break;
      }
      var p := remaining[|remaining| - 1];
      remaining := remaining[..|remaining| - 1];
      ghost var before := Received(rx);
      rx := Clip(p, rx);
      ReceivedStream(ClipPolygon(p, before));
    }
    result := RecvList(rx);
  }
}
