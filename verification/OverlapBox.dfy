/**
 The overlap of a tenement and a parcel: an exact clip when every corner of the
 parcel turns one way, otherwise the intersection of the two bounding boxes.
 Unless the parcel lies on one line the fallback box holds everything the exact
 clip would return, and when the fallback reports no overlap the exact clip has
 no area, unless the parcel is a single point.
 */
module OverlapBox {
  import opened PolygonClip
  import opened ClipArea
  import opened ClipHull
  import opened Numbers

  datatype Box = Box(minX: real, minY: real, maxX: real, maxY: real) {
    predicate Holds(p: Point) { minX <= p.x <= maxX && minY <= p.y <= maxY }

    function Corners(): Ring {
      [Point(minX, minY), Point(maxX, minY), Point(maxX, maxY), Point(minX, maxY)]
    }

    predicate Solid() { minX < maxX && minY < maxY }
  }

  // The least box that holds the ring.
  ghost predicate Bounds(b: Box, ring: Ring) {
    && (forall p <- ring :: b.Holds(p))
    && (exists p <- ring :: p.x == b.minX) && (exists p <- ring :: p.x == b.maxX)
    && (exists p <- ring :: p.y == b.minY) && (exists p <- ring :: p.y == b.maxY)
  }

  method BoundingBox(ring: Ring) returns (b: Box)
    requires ring != []
    ensures Bounds(b, ring)
  {
    var p := ring[0];
    b := Box(p.x, p.y, p.x, p.y);
    for i := 1 to |ring|
      invariant Bounds(b, ring[..i])
    {
      p := ring[i];
      assert ring[..i + 1] == ring[..i] + [p];
      ghost var was := b;
      b := Box(Min(b.minX, p.x), Min(b.minY, p.y), Max(b.maxX, p.x), Max(b.maxY, p.y));
      Widened(was, b, ring[..i], p);
    }
    assert ring[..|ring|] == ring;
  }

  lemma Widened(was: Box, b: Box, ring: Ring, p: Point)
    requires Bounds(was, ring)
    requires b == Box(Min(was.minX, p.x), Min(was.minY, p.y), Max(was.maxX, p.x), Max(was.maxY, p.y))
    ensures Bounds(b, ring + [p])
  {
  }

  function Meet(a: Box, b: Box): Box {
    Box(Max(a.minX, b.minX), Max(a.minY, b.minY), Min(a.maxX, b.maxX), Min(a.maxY, b.maxY))
  }

  // ---------- convexity ----------

  function Turn(ring: Ring, i: nat): real
    requires i < |ring|
  {
    var a, b, c := ring[i], ring[(i + 1) % |ring|], ring[(i + 2) % |ring|];
    (b.x - a.x) * (c.y - b.y) - (b.y - a.y) * (c.x - b.x)
  }

  // Every corner turns one way, and not every corner is straight.
  ghost predicate TurnsOneWay(ring: Ring) {
    && (exists i :: 0 <= i < |ring| && Turn(ring, i) != 0.0)
    && ((forall i :: 0 <= i < |ring| ==> Turn(ring, i) >= 0.0) || (forall i :: 0 <= i < |ring| ==> Turn(ring, i) <= 0.0))
  }

  method IsConvex(ring: Ring) returns (convex: bool)
    ensures convex <==> |ring| >= 3 && TurnsOneWay(ring)
  {
    if |ring| < 3 { return false; }
    hide Turn;
    var sign := 0;
    for i := 0 to |ring|
      invariant sign in {-1, 0, 1}
      invariant sign == 0 ==> forall k :: 0 <= k < i ==> Turn(ring, k) == 0.0
      invariant sign == 1 ==> (exists k :: 0 <= k < i && Turn(ring, k) > 0.0) && forall k :: 0 <= k < i ==> Turn(ring, k) >= 0.0
      invariant sign == -1 ==> (exists k :: 0 <= k < i && Turn(ring, k) < 0.0) && forall k :: 0 <= k < i ==> Turn(ring, k) <= 0.0
    {
      var cross := Turn(ring, i);
      if cross != 0.0 {
        var s := if cross > 0.0 then 1 else -1;
        if sign == 0 {
          sign := s;
        } else if sign != s {
          return false;
        }
      }
    }
    return sign != 0;
  }

  // ---------- the overlap ----------

  datatype Method = ConvexClip | BoxFallback

  datatype Overlap = NoOverlap | Overlap(ring: Ring, areaM2: real, percentOfParcel: real, how: Method)

  // What is reported of an overlap ring, by the area the host computes; nothing if it has none.
  function Report(ring: Ring, parcel: Ring, area: Ring -> real, how: Method): Overlap {
    if area(ring) <= 0.0 then NoOverlap
    else Overlap(ring, area(ring), if area(parcel) > 0.0 then area(ring) / area(parcel) * 100.0 else 0.0, how)
  }

  method OverlapStats(tenement: Ring, parcel: Ring, area: Ring -> real) returns (r: Overlap)
    ensures |tenement| < 3 || |parcel| < 3 ==> r == NoOverlap
    ensures |tenement| >= 3 && |parcel| >= 3 && TurnsOneWay(parcel) ==>
              var clipped := Clip(tenement, parcel);
              r == if |clipped| < 3 then NoOverlap else Report(clipped, parcel, area, ConvexClip)
    ensures |tenement| >= 3 && |parcel| >= 3 && !TurnsOneWay(parcel) ==>
              exists pb, tb :: Bounds(pb, parcel) && Bounds(tb, tenement)
                && r == if Meet(pb, tb).Solid() then Report(Meet(pb, tb).Corners(), parcel, area, BoxFallback) else NoOverlap
  {
    hide TurnsOneWay, Clip, Bounds;
    if |parcel| < 3 || |tenement| < 3 { return NoOverlap; }
    var convex := IsConvex(parcel);
    if !convex {
      var pb := BoundingBox(parcel);
      var tb := BoundingBox(tenement);
      var meet := Meet(pb, tb);
      assert Bounds(pb, parcel) && Bounds(tb, tenement);
      if meet.minX >= meet.maxX || meet.minY >= meet.maxY { return NoOverlap; }
      var ring := meet.Corners();
      var overlapArea := area(ring);
      if overlapArea <= 0.0 { return NoOverlap; }
      var parcelArea := area(parcel);
      var percent := if parcelArea > 0.0 then overlapArea / parcelArea * 100.0 else 0.0;
      return Overlap(ring, overlapArea, percent, BoxFallback);
    }
    var clipped := SutherlandHodgmanClip(tenement, parcel);
    if |clipped| < 3 { return NoOverlap; }
    var overlapArea := area(clipped);
    if overlapArea <= 0.0 { return NoOverlap; }
    var parcelArea := area(parcel);
    var percent := if parcelArea > 0.0 then overlapArea / parcelArea * 100.0 else 0.0;
    return Overlap(clipped, overlapArea, percent, ConvexClip);
  }

  /** The corners of a box with area enclose exactly its points, counter-clockwise, and its area. */
  lemma CornersEnclose(b: Box, p: Point)
    requires b.Solid()
    ensures InsideAll(p, b.Corners()) <==> b.Holds(p)
    ensures Area2(b.Corners()) == 2.0 * ((b.maxX - b.minX) * (b.maxY - b.minY))
  {
    var r, w, h := b.Corners(), b.maxX - b.minX, b.maxY - b.minY;
    assert Next(r, 0) == r[1] && Next(r, 1) == r[2] && Next(r, 2) == r[3] && Next(r, 3) == r[0];
    CornerSides(b, p);
    SignOfMultiple(w, p.y - b.minY);
    SignOfMultiple(w, b.maxY - p.y);
    SignOfMultiple(h, p.x - b.minX);
    SignOfMultiple(h, b.maxX - p.x);
    hide Side;
    FourPointArea(r);
    CornerCrosses(b);
  }

  lemma CornerSides(b: Box, p: Point)
    ensures (var r, w, h := b.Corners(), b.maxX - b.minX, b.maxY - b.minY;
             && Side(p, r[0], r[1]) == w * (p.y - b.minY) && Side(p, r[1], r[2]) == h * (b.maxX - p.x)
             && Side(p, r[2], r[3]) == w * (b.maxY - p.y) && Side(p, r[3], r[0]) == h * (p.x - b.minX))
  {
  }

  lemma SignOfMultiple(x: real, y: real)
    requires x > 0.0
    ensures x * y >= 0.0 <==> y >= 0.0
  {
  }

  lemma FourPointArea(r: Ring)
    requires |r| == 4
    ensures Area2(r) == Cross(r[0], r[1]) + Cross(r[1], r[2]) + Cross(r[2], r[3]) + Cross(r[3], r[0])
  {
    hide Cross;
    assert CrossUpTo(r, 1) == CrossUpTo(r, 0) + Cross(r[0], r[1]);
    assert CrossUpTo(r, 2) == CrossUpTo(r, 1) + Cross(r[1], r[2]);
    assert CrossUpTo(r, 3) == CrossUpTo(r, 2) + Cross(r[2], r[3]);
  }

  lemma CornerCrosses(b: Box)
    ensures (var r := b.Corners();
             Cross(r[0], r[1]) + Cross(r[1], r[2]) + Cross(r[2], r[3]) + Cross(r[3], r[0])
             == 2.0 * ((b.maxX - b.minX) * (b.maxY - b.minY)))
  {
  }

  /**
   What is reported is the ring with its area and that area's share of the
   parcel, at most 100 percent if the overlap is no larger; nothing without area.
   */
  lemma ReportIsShare(ring: Ring, parcel: Ring, area: Ring -> real, how: Method)
    ensures (var r := Report(ring, parcel, area, how);
             && (r.NoOverlap? <==> area(ring) <= 0.0)
             && (r.Overlap? ==>
                   && r.ring == ring && r.how == how && r.areaM2 == area(ring)
                   && (area(parcel) > 0.0 ==> r.percentOfParcel * area(parcel) == 100.0 * r.areaM2)
                   && (area(parcel) > 0.0 ==> r.percentOfParcel > 0.0 && (r.percentOfParcel <= 100.0 <==> area(ring) <= area(parcel)))
                   && (area(parcel) <= 0.0 ==> r.percentOfParcel == 0.0)))
  {
    if area(ring) > 0.0 && area(parcel) > 0.0 { Share(area(ring), area(parcel)); }
  }

  lemma Share(x: real, y: real)
    requires x > 0.0 && y > 0.0
    ensures x / y * 100.0 * y == 100.0 * x && x / y * 100.0 > 0.0 && (x / y * 100.0 <= 100.0 <==> x <= y)
  {
    assert x / y * y == x;
    assert x / y > 0.0;
    assert x / y <= 1.0 <==> x <= y;
  }

  // ---------- the two methods agree ----------

  lemma UprightSide(p: Point, x: real)
    ensures Side(p, Point(x, 1.0), Point(x, 0.0)) == p.x - x && Side(p, Point(x, 0.0), Point(x, 1.0)) == x - p.x
  {
  }

  lemma LevelSide(p: Point, y: real)
    ensures Side(p, Point(0.0, y), Point(1.0, y)) == p.y - y && Side(p, Point(1.0, y), Point(0.0, y)) == y - p.y
  {
  }

  lemma BoxHalfPlanes(b: Box, p: Point)
    ensures b.Holds(p) <==>
      && Inside(p, Point(b.minX, 1.0), Point(b.minX, 0.0)) && Inside(p, Point(b.maxX, 0.0), Point(b.maxX, 1.0))
      && Inside(p, Point(0.0, b.minY), Point(1.0, b.minY)) && Inside(p, Point(1.0, b.maxY), Point(0.0, b.maxY))
  {
    hide Side;
    UprightSide(p, b.minX);
    UprightSide(p, b.maxX);
    LevelSide(p, b.minY);
    LevelSide(p, b.maxY);
  }

  lemma ClipInBox(subject: Ring, clip: Ring, ring: Ring, b: Box, p: Point)
    requires p in Clip(subject, clip)
    requires ring == subject || (ring == clip && !Collinear(clip))
    requires Bounds(b, ring)
    ensures b.Holds(p)
  {
    forall q | q in ring
      ensures Inside(q, Point(b.minX, 1.0), Point(b.minX, 0.0)) && Inside(q, Point(b.maxX, 0.0), Point(b.maxX, 1.0))
      ensures Inside(q, Point(0.0, b.minY), Point(1.0, b.minY)) && Inside(q, Point(1.0, b.maxY), Point(0.0, b.maxY))
    {
      BoxHalfPlanes(b, q);
    }
    hide Inside, Clip, Collinear;
    ClipInHulls(subject, clip, p, Point(b.minX, 1.0), Point(b.minX, 0.0));
    ClipInHulls(subject, clip, p, Point(b.maxX, 0.0), Point(b.maxX, 1.0));
    ClipInHulls(subject, clip, p, Point(0.0, b.minY), Point(1.0, b.minY));
    ClipInHulls(subject, clip, p, Point(1.0, b.maxY), Point(0.0, b.maxY));
    BoxHalfPlanes(b, p);
  }

  // The fallback box of this tenement and parcel holds every vertex the exact clip returns.
  ghost predicate Covers(tenement: Ring, parcel: Ring, pb: Box) {
    forall tb, p :: Bounds(tb, tenement) && p in Clip(tenement, parcel) ==> Meet(pb, tb).Holds(p)
  }

  // ---------- parcels on one line ----------

  // A point on the parcel's line, outside its box.
  lemma PointPast(parcel: Ring, pb: Box) returns (q: Point)
    requires Collinear(parcel) && parcel != [] && Bounds(pb, parcel)
    ensures OnLineOf(q, parcel) && !pb.Holds(q)
  {
    if SeveralPoints(parcel) {
      hide Bounds, Collinear, OnLineOf;
      var k :| 0 <= k < |parcel| && parcel[k] != parcel[0];
      var s := StepsPast(parcel[0], parcel[k], pb);
      q := Along(parcel[0], parcel[k], s);
      AlongIsOnLine(parcel, k, s);
    } else {
      q := Point(pb.maxX + 1.0, parcel[0].y);
      PointOnLine(q, parcel);
    }
  }

  lemma AlongIsOnLine(ring: Ring, k: nat, s: real)
    requires Collinear(ring) && k < |ring|
    ensures OnLineOf(Along(ring[0], ring[k], s), ring)
  {
    hide Side, Along;
    forall i, j | 0 <= i < |ring| && 0 <= j < |ring| ensures Side(Along(ring[0], ring[k], s), ring[i], ring[j]) == 0.0 {
      assert Side(ring[0], ring[i], ring[j]) == 0.0 && Side(ring[k], ring[i], ring[j]) == 0.0;
      SideAlong(ring[0], ring[k], s, ring[i], ring[j]);
    }
  }

  lemma PointOnLine(q: Point, ring: Ring)
    requires ring != [] && !SeveralPoints(ring)
    ensures OnLineOf(q, ring)
  {
    hide Side;
    NoEdgeNoSide(ring[0]);
    assert forall i :: 0 <= i < |ring| ==> ring[i] == ring[0];
  }

  lemma StepsPast(a: Point, b: Point, box: Box) returns (s: real)
    requires a != b
    ensures !box.Holds(Along(a, b, s))
  {
    if b.x != a.x {
      s := (box.maxX + 1.0 - a.x) / (b.x - a.x);
      QuotientTimes(box.maxX + 1.0 - a.x, b.x - a.x);
      assert Along(a, b, s).x == box.maxX + 1.0;
    } else {
      s := (box.maxY + 1.0 - a.y) / (b.y - a.y);
      QuotientTimes(box.maxY + 1.0 - a.y, b.y - a.y);
      assert Along(a, b, s).y == box.maxY + 1.0;
    }
  }

  lemma QuotientTimes(x: real, d: real)
    requires d != 0.0
    ensures x / d * d == x
  {
  }

  // A triangle with a given corner.
  function Corner(q: Point): Ring {
    [q, Point(q.x + 1.0, q.y), Point(q.x, q.y + 1.0)]
  }

  lemma CornerBounds(q: Point)
    ensures Bounds(Box(q.x, q.y, q.x + 1.0, q.y + 1.0), Corner(q))
    ensures Area2(Corner(q)) == 1.0
  {
    var r := Corner(q);
    assert r[0] in r && r[1] in r && r[2] in r;
    assert CrossUpTo(r, 1) == CrossUpTo(r, 0) + Cross(r[0], r[1]);
    assert CrossUpTo(r, 2) == CrossUpTo(r, 1) + Cross(r[1], r[2]);
    assert CrossUpTo(r, 3) == CrossUpTo(r, 2) + Cross(r[2], r[0]);
    CrossTriangle(q.x, q.y);
  }

  lemma CrossTriangle(x: real, y: real)
    ensures (x * y - (x + 1.0) * y) + ((x + 1.0) * (y + 1.0) - x * y) + (x * y - x * (y + 1.0)) == 1.0
  {
  }

  /** Any parcel on one line fails: the exact clip keeps a corner on that line outside the parcel's box. */
  lemma LineParcelMisses(parcel: Ring, pb: Box) returns (tenement: Ring, q: Point)
    requires |parcel| >= 3 && Collinear(parcel) && Bounds(pb, parcel)
    ensures |tenement| == 3 && Area2(tenement) != 0.0
    ensures q in Clip(tenement, parcel) && !pb.Holds(q) && !Covers(tenement, parcel, pb)
  {
    hide Collinear, OnLineOf, Clip, Area2;
    q := PointPast(parcel, pb);
    tenement := Corner(q);
    CornerBounds(q);
    assert q in tenement;
    LineKeepsAll(tenement, parcel, q);
    assert !Meet(pb, Box(q.x, q.y, q.x + 1.0, q.y + 1.0)).Holds(q);
  }

  // ---------- what the fallback covers ----------

  lemma FallbackCovers(tenement: Ring, parcel: Ring, tb: Box, pb: Box, p: Point)
    requires Bounds(tb, tenement) && Bounds(pb, parcel) && !Collinear(parcel)
    requires p in Clip(tenement, parcel)
    ensures Meet(pb, tb).Holds(p)
  {
    hide Clip, Collinear, Bounds;
    ClipInBox(tenement, parcel, tenement, tb, p);
    ClipInBox(tenement, parcel, parcel, pb, p);
  }

  /**
   The fallback box holds every vertex the exact clip returns, for every tenement,
   exactly when the parcel does not lie on one line.
   */
  lemma FallbackCoversClip(parcel: Ring, pb: Box)
    requires |parcel| >= 3 && Bounds(pb, parcel)
    ensures (forall tenement: Ring :: Covers(tenement, parcel, pb)) <==> !Collinear(parcel)
  {
    hide Clip, Collinear, Bounds, Area2;
    if Collinear(parcel) {
      var tenement, q := LineParcelMisses(parcel, pb);
      assert !Covers(tenement, parcel, pb);
    } else {
      forall tenement: Ring ensures Covers(tenement, parcel, pb) {
        forall tb, p | Bounds(tb, tenement) && p in Clip(tenement, parcel) ensures Meet(pb, tb).Holds(p) {
          FallbackCovers(tenement, parcel, tb, pb, p);
        }
      }
    }
  }

  lemma ThinRingHasNoArea(b: Box, ring: Ring)
    requires !b.Solid() && forall p <- ring :: b.Holds(p)
    ensures Area2(ring) == 0.0
  {
    if ring != [] {
      forall k | 0 <= k < |ring| ensures From(ring[0], ring[k], Next(ring, k)) == 0.0 {
        assert b.Holds(ring[0]) && b.Holds(ring[k]) && b.Holds(Next(ring, k));
        var o, p, q := ring[0], ring[k], Next(ring, k);
        if b.minX >= b.maxX {
          assert p.x - o.x == 0.0 && q.x - o.x == 0.0;
        } else {
          assert p.y - o.y == 0.0 && q.y - o.y == 0.0;
        }
      }
      FlatRing(ring[0], ring);
    }
  }

  lemma OnOneLineNoArea(ring: Ring, a: Point, b: Point)
    requires a != b && forall p <- ring :: Side(p, a, b) == 0.0
    ensures Area2(ring) == 0.0
  {
    if ring != [] {
      forall k | 0 <= k < |ring| ensures From(ring[0], ring[k], Next(ring, k)) == 0.0 {
        assert ring[0] in ring && ring[k] in ring && Next(ring, k) in ring;
        OnLineNoArea(ring[0], ring[k], Next(ring, k), a, b);
      }
      FlatRing(ring[0], ring);
    }
  }

  // A ring on one line, with two different points, leaves only that line.
  lemma LineClipHasNoArea(subject: Ring, clip: Ring)
    requires Collinear(clip) && SeveralPoints(clip)
    ensures Area2(Clip(subject, clip)) == 0.0
  {
    hide Clip, From, Side, Collinear;
    CollinearHasNoArea(clip);
    assert Ccw(clip) == clip;
    var k := SomeEdge(clip);
    forall p | p in Clip(subject, clip) ensures Side(p, clip[k], Next(clip, k)) == 0.0 {
      ClipContained(subject, clip, p);
      InsideAllArea(clip, p);
      SideIsFrom(p, clip[k], Next(clip, k));
    }
    OnOneLineNoArea(Clip(subject, clip), clip[k], Next(clip, k));
  }

  predicate SeveralPoints(ring: Ring) {
    exists k :: 0 <= k < |ring| && ring[k] != ring[0]
  }

  lemma SomeEdge(ring: Ring) returns (k: nat)
    requires SeveralPoints(ring)
    ensures k < |ring| && ring[k] != Next(ring, k)
  {
    var m :| 0 <= m < |ring| && ring[m] != ring[0];
    k := FirstStep(ring, m);
  }

  lemma {:induction false} FirstStep(ring: Ring, m: nat) returns (k: nat)
    requires m < |ring| && ring[m] != ring[0]
    ensures k < m && ring[k] != Next(ring, k)
  {
    if ring[m - 1] == ring[0] { k := m - 1; } else { k := FirstStep(ring, m - 1); }
  }

  lemma PointClipKeepsAll(subject: Ring, clip: Ring)
    requires |subject| >= 3 && |clip| >= 3 && !SeveralPoints(clip)
    ensures Clip(subject, clip) == Ccw(subject)
  {
    var a := clip[0];
    NoEdgeNoSide(a);
    assert Collinear(clip) by {
      forall i, j, k | 0 <= i < |clip| && 0 <= j < |clip| && 0 <= k < |clip| ensures Side(clip[k], clip[i], clip[j]) == 0.0 {
        assert clip[i] == a && clip[j] == a;
      }
    }
    hide Side, Area2, Collinear, Clip;
    CollinearHasNoArea(clip);
    assert Ccw(clip) == clip;
    forall k | 0 <= k < |clip| ensures AllInside(subject, clip[k], Next(clip, k)) {
      assert clip[k] == a && Next(clip, k) == a;
    }
    WhollyInside(subject, clip);
  }

  lemma NoEdgeNoSide(a: Point)
    ensures forall p :: Side(p, a, a) == 0.0
  {
  }

  /**
   When the bounding boxes do not overlap the exact clip has no area to report,
   unless the parcel is a single point and the tenement has area.
   */
  lemma NoFallbackNoArea(tenement: Ring, parcel: Ring, tb: Box, pb: Box)
    requires |tenement| >= 3 && |parcel| >= 3
    requires Bounds(tb, tenement) && Bounds(pb, parcel) && !Meet(pb, tb).Solid()
    ensures Area2(Clip(tenement, parcel)) == 0.0 <==> SeveralPoints(parcel) || Area2(tenement) == 0.0
  {
    hide Clip, Area2, Bounds, Collinear;
    if !SeveralPoints(parcel) {
      PointClipKeepsAll(tenement, parcel);
      CcwArea(tenement);
    } else if Collinear(parcel) {
      LineClipHasNoArea(tenement, parcel);
    } else {
      forall p | p in Clip(tenement, parcel) ensures Meet(pb, tb).Holds(p) {
        FallbackCovers(tenement, parcel, tb, pb, p);
      }
      ThinRingHasNoArea(Meet(pb, tb), Clip(tenement, parcel));
    }
  }
}
