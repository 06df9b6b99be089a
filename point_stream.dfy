/**
 The point-stream protocol between pipeline stages: a producer repeatedly
 chooses either to send one more point or to close, and closes exactly once.
 A channel is modelled by its observable trace, the events in the order the
 producer made them.
 */
module PointStream {
  import opened Geometry

  /** One step of the protocol: send a point, or close the stream. */
  datatype Event = Send(point: Point) | Close

  /** A complete trace: zero or more sends, then exactly one close, and nothing after it. */
  predicate WellFormed(t: seq<Event>)
  {
    |t| > 0 && t[|t| - 1] == Close && forall i :: 0 <= i < |t| - 1 ==> t[i].Send?
  }

  /** The sends of the points of ps, in order. */
  function Sends(ps: seq<Point>): (t: seq<Event>)
    ensures |t| == |ps|
    ensures forall i :: 0 <= i < |ps| ==> t[i] == Send(ps[i])
  {
    seq(|ps|, i requires 0 <= i < |ps| => Send(ps[i]))
  }

  lemma SendsAppend(a: seq<Point>, b: seq<Point>)
    ensures Sends(a + b) == Sends(a) + Sends(b)
  {
  }

  /** The complete trace of a producer that streams ps and then closes. */
  function Stream(ps: seq<Point>): (t: seq<Event>)
    ensures WellFormed(t)
    ensures |t| == |ps| + 1
  {
    Sends(ps) + [Close]
  }

  /** The points a complete trace carries, in arrival order. */
  function Received(t: seq<Event>): (ps: seq<Point>)
    requires WellFormed(t)
    ensures |ps| == |t| - 1
    ensures forall i :: 0 <= i < |ps| ==> t[i] == Send(ps[i])
  {
    seq(|t| - 1, i requires 0 <= i < |t| - 1 => t[i].point)
  }

  /** What the consumer receives is exactly what the producer sent, in the same order. */
  lemma ReceivedStream(ps: seq<Point>)
    ensures Received(Stream(ps)) == ps
  {
  }

  /** Every complete trace is the stream of the points it carries, so a trace and its points determine each other. */
  lemma StreamReceived(t: seq<Event>)
    requires WellFormed(t)
    ensures Stream(Received(t)) == t
  {
  }

  /** A complete trace closes exactly once, at its end. */
  lemma ClosesOnce(t: seq<Event>, i: nat)
    requires WellFormed(t) && i < |t|
    ensures t[i] == Close <==> i == |t| - 1
  {
  }

  /**
   The producer: for every point in order it selects "send" and sends it, then
   selects "close". The handle that the source rebinds after each send is the
   trace built so far.
   */
  method SendList(xs: seq<Point>) returns (c: seq<Event>)
    ensures c == Stream(xs)
  {
    c := [];
    for i := 0 to |xs|
      invariant c == Sends(xs[..i])
    {
      c := c + [Send(xs[i])];
    }
    assert xs[..|xs|] == xs;
    c := c + [Close];
  }

  /**
   The consumer: offers on the input until the producer closes, pushing every
   received point in arrival order.
   */
  method RecvList(c: seq<Event>) returns (v: seq<Point>)
    requires WellFormed(c)
    ensures v == Received(c)
  {
    v := [];
    var pos := 0;
    while true
      invariant 0 <= pos < |c|
      invariant v == Received(c)[..pos]
      decreases |c| - pos
    {
      match c[pos]
      case Close =>
        break;
      case Send(x) =>
        v := v + [x];
        pos := pos + 1;
    }
  }
}
