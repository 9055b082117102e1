/**
 Sutherland-Hodgman clipping over exact reals.

 One pass keeps the part of a ring on the inner side of one edge; clipping runs
 a pass for every edge of the clip ring. The central identity is that `intersect`
 divides a segment in the ratio of its end points' signed distances to the edge.
 */
module PolygonClip {
  import opened Options

  datatype Point = Point(x: real, y: real)

  type Ring = seq<Point>

  // Twice the signed area of the triangle a, b, p: positive when p is left of a -> b.
  function Side(p: Point, a: Point, b: Point): real {
    (b.x - a.x) * (p.y - a.y) - (b.y - a.y) * (p.x - a.x)
  }

  predicate Inside(p: Point, a: Point, b: Point) { Side(p, a, b) >= 0.0 }

  // The point a fraction t of the way from p to q.
  function Along(p: Point, q: Point, t: real): Point {
    Point(p.x + t * (q.x - p.x), p.y + t * (q.y - p.y))
  }

  function Denominator(s1: Point, s2: Point, a: Point, b: Point): real {
    (s1.x - s2.x) * (a.y - b.y) - (s1.y - s2.y) * (a.x - b.x)
  }

  function Numerator(s1: Point, a: Point, b: Point): real {
    (s1.x - a.x) * (a.y - b.y) - (s1.y - a.y) * (a.x - b.x)
  }

  // Where the line through s1 and s2 meets the line through a and b; none if they are parallel.
  function Intersect(s1: Point, s2: Point, a: Point, b: Point): Option<Point> {
    var denom := Denominator(s1, s2, a, b);
    if denom == 0.0 then None else Some(Along(s1, s2, Numerator(s1, a, b) / denom))
  }

  // ---------- the intersection point ----------

  // The two quantities `intersect` divides are signed distances to the edge.
  lemma DenominatorIsSideGap(s1: Point, s2: Point, a: Point, b: Point)
    ensures Denominator(s1, s2, a, b) == Side(s1, a, b) - Side(s2, a, b)
  {
  }

  lemma NumeratorIsSide(s1: Point, a: Point, b: Point)
    ensures Numerator(s1, a, b) == Side(s1, a, b)
  {
  }

  // Signed distance is affine along a segment.
  lemma SideAlong(p: Point, q: Point, t: real, c: Point, d: Point)
    ensures Side(Along(p, q, t), c, d) == Side(p, c, d) + t * (Side(q, c, d) - Side(p, c, d))
  {
  }

  /** A segment that crosses the edge is cut, on the edge's line and between its ends. */
  lemma IntersectCuts(p: Point, q: Point, a: Point, b: Point)
    requires Inside(p, a, b) != Inside(q, a, b)
    ensures var t := Side(p, a, b) / (Side(p, a, b) - Side(q, a, b));
            && Intersect(p, q, a, b) == Some(Along(p, q, t))
            && 0.0 <= t <= 1.0
            && Side(Along(p, q, t), a, b) == 0.0
  {
    var u, v := Side(p, a, b), Side(q, a, b);
    IntersectBySides(p, q, a, b);
    Fraction(u, v);
    SideAlong(p, q, u / (u - v), a, b);
  }

  lemma IntersectBySides(p: Point, q: Point, a: Point, b: Point)
    ensures var u, v := Side(p, a, b), Side(q, a, b);
            Intersect(p, q, a, b) == if u == v then None else Some(Along(p, q, u / (u - v)))
  {
    DenominatorIsSideGap(p, q, a, b);
    NumeratorIsSide(p, a, b);
  }

  lemma Fraction(u: real, v: real)
    requires (u >= 0.0) != (v >= 0.0)
    ensures u != v && 0.0 <= u / (u - v) <= 1.0 && u + u / (u - v) * (v - u) == 0.0
  {
  }

  // Inside every half-plane that holds both ends.
  lemma BetweenIsInside(p: Point, q: Point, t: real, c: Point, d: Point)
    requires 0.0 <= t <= 1.0 && Inside(p, c, d) && Inside(q, c, d)
    ensures Inside(Along(p, q, t), c, d)
  {
    SideAlong(p, q, t, c, d);
    var u, v := Side(p, c, d), Side(q, c, d);
    assert u + t * (v - u) == (1.0 - t) * u + t * v;
    NonNegative(1.0 - t, u);
    NonNegative(t, v);
  }

  lemma NonNegative(x: real, y: real)
    requires x >= 0.0 && y >= 0.0
    ensures x * y >= 0.0
  {
  }

  // ---------- one pass, and the whole clip ----------

  function ToSeq(o: Option<Point>): seq<Point> {
    match o case None => [] case Some(p) => [p]
  }

  // What a pass against a -> b keeps of the segment prev -> current, current included.
  function Emit(prev: Point, current: Point, a: Point, b: Point): seq<Point> {
    if Inside(current, a, b) then
      (if Inside(prev, a, b) then [] else ToSeq(Intersect(prev, current, a, b))) + [current]
    else if Inside(prev, a, b) then ToSeq(Intersect(prev, current, a, b))
    else []
  }

  function Prev(ring: Ring, j: nat): Point
    requires j < |ring|
  {
    ring[if j == 0 then |ring| - 1 else j - 1]
  }

  function Next(ring: Ring, j: nat): Point
    requires j < |ring|
  {
    ring[if j + 1 == |ring| then 0 else j + 1]
  }

  lemma SmallModulus(x: nat, n: nat)
    requires x < n
    ensures x % n == x && (x + n) % n == x
  {
  }

  // Going round the ring is index arithmetic modulo its length.
  lemma Wrap(ring: Ring, j: nat)
    requires j < |ring|
    ensures Next(ring, j) == ring[(j + 1) % |ring|] && Prev(ring, j) == ring[(j - 1 + |ring|) % |ring|]
  {
    if j + 1 < |ring| { SmallModulus(j + 1, |ring|); }
    if j > 0 { SmallModulus(j - 1, |ring|); } else { SmallModulus(|ring| - 1, |ring|); }
  }

  // The first n segments of a pass.
  function PassUpTo(ring: Ring, a: Point, b: Point, n: nat): Ring
    requires n <= |ring|
  {
    if n == 0 then [] else PassUpTo(ring, a, b, n - 1) + Emit(Prev(ring, n - 1), ring[n - 1], a, b)
  }

  function Pass(ring: Ring, a: Point, b: Point): Ring { PassUpTo(ring, a, b, |ring|) }

  // The passes against the edges of the clip ring from edge i on.
  function ClipFrom(output: Ring, clip: Ring, i: nat): Ring
    requires i <= |clip|
    decreases |clip| - i
  {
    if i == |clip| then output
    else if output == [] then []
    else ClipFrom(Pass(output, clip[i], Next(clip, i)), clip, i + 1)
  }

  function Minus(p: Point, q: Point): Point { Point(p.x - q.x, p.y - q.y) }

  function Cross(p: Point, q: Point): real { p.x * q.y - q.x * p.y }

  function CrossUpTo(ring: Ring, n: nat): real
    requires n <= |ring|
  {
    if n == 0 then 0.0 else CrossUpTo(ring, n - 1) + Cross(ring[n - 1], Next(ring, n - 1))
  }

  // Twice the signed shoelace area.
  function Area2(ring: Ring): real { CrossUpTo(ring, |ring|) }

  function Reversed(ring: Ring): Ring {
    seq(|ring|, i requires 0 <= i < |ring| => ring[|ring| - 1 - i])
  }

  function Ccw(ring: Ring): Ring {
    if |ring| < 3 || Area2(ring) >= 0.0 then ring else Reversed(ring)
  }

  method ToCcw(ring: Ring) returns (r: Ring)
    ensures r == Ccw(ring)
  {
    if |ring| < 3 { return ring; }
    var signed := 0.0;
    for i := 0 to |ring|
      invariant signed == CrossUpTo(ring, i)
    {
      var p, q := ring[i], Next(ring, i);
      signed := signed + (p.x * q.y - q.x * p.y);
    }
    return if signed >= 0.0 then ring else Reversed(ring);
  }

  method ShoelaceArea(ring: Ring) returns (area: real)
    ensures area == if Area2(ring) < 0.0 then -Area2(ring) / 2.0 else Area2(ring) / 2.0
  {
    if |ring| < 3 {
      SmallRingsHaveNoArea(ring);
      return 0.0;
    }
    var s := 0.0;
    for i := 0 to |ring|
      invariant s == CrossUpTo(ring, i)
    {
      var p, q := ring[i], Next(ring, i);
      s := s + (p.x * q.y - q.x * p.y);
    }
    return if s < 0.0 then -s / 2.0 else s / 2.0;
  }

  lemma SmallRingsHaveNoArea(ring: Ring)
    requires |ring| < 3
    ensures Area2(ring) == 0.0
  {
    if |ring| == 1 {
      assert CrossUpTo(ring, 1) == CrossUpTo(ring, 0) + Cross(ring[0], ring[0]);
    } else if |ring| == 2 {
      assert CrossUpTo(ring, 1) == CrossUpTo(ring, 0) + Cross(ring[0], ring[1]);
      assert CrossUpTo(ring, 2) == CrossUpTo(ring, 1) + Cross(ring[1], ring[0]);
    }
  }

  ghost predicate AllInside(ring: Ring, a: Point, b: Point) {
    forall p :: p in ring ==> Inside(p, a, b)
  }

  // The inner loop: one pass against the edge a -> b.
  method ClipEdge(input: Ring, a: Point, b: Point) returns (output: Ring)
    ensures output == Pass(input, a, b)
  {
    hide Inside, Intersect, Prev, PassUpTo;
    output := [];
    PassStart(input, a, b);
    for j := 0 to |input|
      invariant output == PassUpTo(input, a, b, j)
    {
      var current, prev := input[j], Prev(input, j);
      PassStep(input, a, b, j);
      var curIn, prevIn := Inside(current, a, b), Inside(prev, a, b);
      if curIn {
        if !prevIn {
          var ix := Intersect(prev, current, a, b);
          if ix.Some? { output := output + [ix.value]; }
        }
        output := output + [current];
      } else if prevIn {
        var ix := Intersect(prev, current, a, b);
        if ix.Some? { output := output + [ix.value]; }
      }
    }
  }

  method SutherlandHodgmanClip(subject: Ring, clip: Ring) returns (output: Ring)
    ensures output == Clip(subject, clip)
  {
    if |subject| < 3 || |clip| < 3 { return []; }
    output := ToCcw(subject);
    var clipCcw := ToCcw(clip);
    hide Ccw, Next, ClipFrom, Pass;
    for i := 0 to |clipCcw|
      invariant ClipFrom(output, clipCcw, i) == ClipFrom(Ccw(subject), clipCcw, 0)
    {
      ClipFromStep(output, clipCcw, i);
      if |output| == 0 { return []; }
      output := ClipEdge(output, clipCcw[i], Next(clipCcw, i));
    }
    ClipFromEnd(output, clipCcw);
  }

  lemma ClipFromEnd(output: Ring, clip: Ring)
    ensures ClipFrom(output, clip, |clip|) == output
  {
  }

  lemma ClipFromStep(output: Ring, clip: Ring, i: nat)
    requires i < |clip|
    ensures ClipFrom(output, clip, i)
         == if output == [] then [] else ClipFrom(Pass(output, clip[i], Next(clip, i)), clip, i + 1)
  {
  }

  lemma PassStart(ring: Ring, a: Point, b: Point)
    ensures PassUpTo(ring, a, b, 0) == []
  {
  }

  lemma PassStep(ring: Ring, a: Point, b: Point, j: nat)
    requires j < |ring|
    ensures var current, prev, kept := ring[j], Prev(ring, j), PassUpTo(ring, a, b, j);
            var ix := Intersect(prev, current, a, b);
            var crossed := if ix.Some? then kept + [ix.value] else kept;
            PassUpTo(ring, a, b, j + 1)
              == if Inside(current, a, b) then (if Inside(prev, a, b) then kept else crossed) + [current]
                 else if Inside(prev, a, b) then crossed
                 else kept
  {
  }

  function Clip(subject: Ring, clip: Ring): Ring {
    if |subject| < 3 || |clip| < 3 then [] else ClipFrom(Ccw(subject), Ccw(clip), 0)
  }

  // ---------- containment ----------

  // What a pass emits lies on the inner side of its edge, and inside whatever half-plane holds the segment.
  lemma EmitInside(prev: Point, current: Point, a: Point, b: Point, c: Point, d: Point)
    ensures forall p :: p in Emit(prev, current, a, b) ==> Inside(p, a, b)
    ensures Inside(prev, c, d) && Inside(current, c, d) ==> forall p :: p in Emit(prev, current, a, b) ==> Inside(p, c, d)
  {
    if Inside(prev, a, b) != Inside(current, a, b) {
      IntersectCuts(prev, current, a, b);
      if Inside(prev, c, d) && Inside(current, c, d) {
        BetweenIsInside(prev, current, Side(prev, a, b) / (Side(prev, a, b) - Side(current, a, b)), c, d);
      }
    }
  }

  lemma {:induction false} PassInside(ring: Ring, a: Point, b: Point, n: nat, c: Point, d: Point)
    requires n <= |ring|
    ensures AllInside(PassUpTo(ring, a, b, n), a, b)
    ensures AllInside(ring, c, d) ==> AllInside(PassUpTo(ring, a, b, n), c, d)
  {
    hide Emit, Inside;
    if n > 0 {
      PassInside(ring, a, b, n - 1, c, d);
      EmitInside(Prev(ring, n - 1), ring[n - 1], a, b, c, d);
    }
  }

  lemma WholePassInside(ring: Ring, a: Point, b: Point, c: Point, d: Point)
    ensures AllInside(Pass(ring, a, b), a, b)
    ensures AllInside(ring, c, d) ==> AllInside(Pass(ring, a, b), c, d)
  {
    PassInside(ring, a, b, |ring|, c, d);
  }

  lemma {:induction false} ClipFromInside(output: Ring, clip: Ring, i: nat, c: Point, d: Point)
    requires i <= |clip|
    requires forall k :: 0 <= k < i ==> AllInside(output, clip[k], Next(clip, k))
    ensures forall k :: 0 <= k < |clip| ==> AllInside(ClipFrom(output, clip, i), clip[k], Next(clip, k))
    ensures AllInside(output, c, d) ==> AllInside(ClipFrom(output, clip, i), c, d)
    decreases |clip| - i
  {
    hide Pass, Inside, Next;
    if i < |clip| && output != [] {
      var a, b := clip[i], Next(clip, i);
      forall k | 0 <= k <= i
        ensures AllInside(Pass(output, a, b), clip[k], Next(clip, k))
      {
        WholePassInside(output, a, b, clip[k], Next(clip, k));
      }
      WholePassInside(output, a, b, c, d);
      ClipFromInside(Pass(output, a, b), clip, i + 1, c, d);
    }
  }

  lemma CcwKeepsPoints(ring: Ring)
    ensures |Ccw(ring)| == |ring| && forall p :: p in Ccw(ring) <==> p in ring
  {
  }

  /**
   Every vertex of the result is inside every edge of the counter-clockwise
   clip ring, and inside every half-plane that holds the whole subject.
   */
  lemma ClipContained(subject: Ring, clip: Ring, p: Point)
    requires p in Clip(subject, clip)
    ensures forall k :: 0 <= k < |Ccw(clip)| ==> Inside(p, Ccw(clip)[k], Next(Ccw(clip), k))
    ensures forall c, d :: AllInside(subject, c, d) ==> Inside(p, c, d)
  {
    var ring := Ccw(clip);
    CcwKeepsPoints(subject);
    forall c, d
      ensures AllInside(subject, c, d) ==> Inside(p, c, d)
      ensures forall k :: 0 <= k < |ring| ==> Inside(p, ring[k], Next(ring, k))
    {
      ClipFromInside(Ccw(subject), ring, 0, c, d);
    }
    ClipFromInside(Ccw(subject), ring, 0, p, p);
  }

  /** No crossing the passes meet is parallel to its edge: `intersect` never fails where it is called. */
  lemma CrossingsExist(prev: Point, current: Point, a: Point, b: Point)
    requires Inside(prev, a, b) != Inside(current, a, b)
    ensures Intersect(prev, current, a, b).Some?
    ensures Inside(current, a, b) ==> Emit(prev, current, a, b) == [Intersect(prev, current, a, b).value, current]
    ensures Inside(prev, a, b) ==> Emit(prev, current, a, b) == [Intersect(prev, current, a, b).value]
  {
  }

  lemma {:induction false} PassAll(ring: Ring, a: Point, b: Point, n: nat)
    requires n <= |ring| && AllInside(ring, a, b)
    ensures PassUpTo(ring, a, b, n) == ring[..n]
  {
    hide Inside, Emit;
    if n > 0 {
      PassAll(ring, a, b, n - 1);
      assert ring[..n] == ring[..n - 1] + [ring[n - 1]];
      EmitKeeps(Prev(ring, n - 1), ring[n - 1], a, b);
    }
  }

  lemma EmitKeeps(prev: Point, current: Point, a: Point, b: Point)
    requires Inside(prev, a, b) && Inside(current, a, b)
    ensures Emit(prev, current, a, b) == [current]
  {
  }

  lemma {:induction false} ClipFromAll(output: Ring, clip: Ring, i: nat)
    requires i <= |clip| && forall k :: 0 <= k < |clip| ==> AllInside(output, clip[k], Next(clip, k))
    ensures ClipFrom(output, clip, i) == output
    decreases |clip| - i
  {
    hide Inside, PassUpTo;
    if i < |clip| && output != [] {
      PassAll(output, clip[i], Next(clip, i), |output|);
      assert output[..|output|] == output;
      ClipFromAll(output, clip, i + 1);
    }
  }

  /** A subject inside every edge comes back as it is, counter-clockwise. */
  lemma WhollyInside(subject: Ring, clip: Ring)
    requires |subject| >= 3 && |clip| >= 3
    requires forall k :: 0 <= k < |Ccw(clip)| ==> AllInside(subject, Ccw(clip)[k], Next(Ccw(clip), k))
    ensures Clip(subject, clip) == Ccw(subject)
  {
    CcwKeepsPoints(subject);
    ClipFromAll(Ccw(subject), Ccw(clip), 0);
  }
}
