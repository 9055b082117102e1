/**
 Where an overlap can lie: a point inside every edge of a ring that is not on one
 line is in every half-plane that holds the ring, so what clipping returns lies
 in every half-plane that holds either ring.

 No convexity is used. Seen from a point outside a half-plane that holds the
 ring, the vertices span less than a half turn; if every edge turned
 counter-clockwise round the point, the ring could not close with area.
 */
module ClipHull {
  import opened PolygonClip
  import opened ClipArea

  // ---------- orientation ----------

  lemma {:induction false} ReversedCross(ring: Ring, k: nat)
    requires k < |ring|
    ensures (var n := |ring| - 1;
             CrossUpTo(Reversed(ring), k) == CrossUpTo(ring, n - k) - CrossUpTo(ring, n))
  {
    hide Cross;
    if k > 0 {
      ReversedCross(ring, k - 1);
      var n, r := |ring| - 1, Reversed(ring);
      assert r[k - 1] == Next(ring, n - k) && Next(r, k - 1) == ring[n - k];
      CrossBackwards(ring[n - k], Next(ring, n - k));
    }
  }

  lemma CrossBackwards(p: Point, q: Point)
    ensures Cross(q, p) == -Cross(p, q)
  {
  }

  lemma ReversedArea(ring: Ring)
    ensures Area2(Reversed(ring)) == -Area2(ring)
  {
    if ring != [] {
      var n, r := |ring| - 1, Reversed(ring);
      ReversedCross(ring, n);
      assert r[n] == ring[0] && Next(r, n) == ring[n] == r[0] && Next(ring, n) == ring[0];
    }
  }

  /** Re-orienting a ring makes its signed area what its area is. */
  lemma CcwArea(ring: Ring)
    ensures Area2(Ccw(ring)) == if Area2(ring) < 0.0 then -Area2(ring) else Area2(ring)
  {
    ReversedArea(ring);
    if |ring| < 3 { SmallRingsHaveNoArea(ring); }
  }

  // ---------- seen from outside a half-plane ----------

  lemma SideIsFrom(p: Point, a: Point, b: Point)
    ensures Side(p, a, b) == From(p, a, b)
  {
  }

  // How much further v lies on the inner side of c -> d than p does.
  function Lead(p: Point, v: Point, c: Point, d: Point): real {
    (d.x - c.x) * (v.y - p.y) - (d.y - c.y) * (v.x - p.x)
  }

  function Advance(p: Point, v: Point, c: Point, d: Point): real {
    (d.x - c.x) * (v.x - p.x) + (d.y - c.y) * (v.y - p.y)
  }

  lemma LeadIsSideGap(p: Point, v: Point, c: Point, d: Point)
    ensures Lead(p, v, c, d) == Side(v, c, d) - Side(p, c, d)
  {
  }

  function Slope(p: Point, v: Point, c: Point, d: Point): real
    requires Lead(p, v, c, d) > 0.0
  {
    Advance(p, v, c, d) / Lead(p, v, c, d)
  }

  lemma TurnIdentity(ex: real, ey: real, vx: real, vy: real, wx: real, wy: real)
    ensures (ex * ex + ey * ey) * (vx * wy - wx * vy) ==
            (ex * vx + ey * vy) * (ex * wy - ey * wx) - (ex * vy - ey * vx) * (ex * wx + ey * wy)
  {
  }

  function Scale(c: Point, d: Point): real {
    (d.x - c.x) * (d.x - c.x) + (d.y - c.y) * (d.y - c.y)
  }

  lemma SlopeGap(p: Point, v: Point, w: Point, c: Point, d: Point)
    ensures Scale(c, d) * From(p, v, w)
         == Advance(p, v, c, d) * Lead(p, w, c, d) - Lead(p, v, c, d) * Advance(p, w, c, d)
  {
    TurnIdentity(d.x - c.x, d.y - c.y, v.x - p.x, v.y - p.y, w.x - p.x, w.y - p.y);
  }

  lemma ScalePositive(p: Point, v: Point, c: Point, d: Point) returns (k: real)
    requires Lead(p, v, c, d) > 0.0
    ensures k == Scale(c, d) && k > 0.0
  {
    k := SquaresPositive(d.x - c.x, d.y - c.y, v.x - p.x, v.y - p.y);
  }

  // An edge that turns counter-clockwise round p lowers the slope, and keeps it only if it turns not at all.
  lemma TurnLowersSlope(p: Point, v: Point, w: Point, c: Point, d: Point)
    requires Lead(p, v, c, d) > 0.0 && Lead(p, w, c, d) > 0.0 && Inside(p, v, w)
    ensures Slope(p, v, c, d) >= Slope(p, w, c, d)
    ensures Slope(p, v, c, d) == Slope(p, w, c, d) ==> From(p, v, w) == 0.0
  {
    hide From, Side, Lead, Advance;
    SideIsFrom(p, v, w);
    SlopeGap(p, v, w, c, d);
    var k := ScalePositive(p, v, c, d);
    CompareQuotients(Advance(p, v, c, d), Lead(p, v, c, d), Advance(p, w, c, d), Lead(p, w, c, d), From(p, v, w), k);
  }

  lemma CompareQuotients(a: real, f: real, b: real, g: real, t: real, k: real)
    requires f > 0.0 && g > 0.0 && t >= 0.0 && k > 0.0
    requires k * t == a * g - f * b
    ensures a / f >= b / g && (a / f == b / g ==> t == 0.0)
  {
  }

  lemma SquaresPositive(ex: real, ey: real, vx: real, vy: real) returns (k: real)
    requires ex * vy - ey * vx > 0.0
    ensures k == ex * ex + ey * ey && k > 0.0
  {
    k := ex * ex + ey * ey;
    Square(ex);
    Square(ey);
    assert ex == 0.0 ==> ex * vy == 0.0;
    assert ey == 0.0 ==> ey * vx == 0.0;
  }

  lemma Square(x: real)
    ensures x * x >= 0.0 && (x != 0.0 ==> x * x > 0.0)
  {
  }

  ghost predicate Ahead(p: Point, ring: Ring, c: Point, d: Point) {
    forall i :: 0 <= i < |ring| ==> Lead(p, ring[i], c, d) > 0.0
  }

  ghost predicate InsideAll(p: Point, ring: Ring) {
    forall k :: 0 <= k < |ring| ==> Inside(p, ring[k], Next(ring, k))
  }

  lemma IsAhead(p: Point, ring: Ring, c: Point, d: Point, i: nat)
    requires i < |ring| && Ahead(p, ring, c, d)
    ensures Lead(p, ring[i], c, d) > 0.0
  {
  }

  lemma IsLeft(p: Point, ring: Ring, k: nat)
    requires k + 1 < |ring| && InsideAll(p, ring)
    ensures Inside(p, ring[k], ring[k + 1])
  {
  }

  lemma {:induction false} SlopesFall(p: Point, ring: Ring, c: Point, d: Point, i: nat, j: nat)
    requires i <= j < |ring| && Ahead(p, ring, c, d) && InsideAll(p, ring)
    ensures Slope(p, ring[i], c, d) >= Slope(p, ring[j], c, d)
    decreases j
  {
    hide Slope, Lead, Inside, InsideAll, Ahead;
    if i < j {
      IsAhead(p, ring, c, d, i);
      IsAhead(p, ring, c, d, j - 1);
      IsAhead(p, ring, c, d, j);
      SlopesFall(p, ring, c, d, i, j - 1);
      IsLeft(p, ring, j - 1);
      TurnLowersSlope(p, ring[j - 1], ring[j], c, d);
    }
  }

  lemma NoEdgeTurns(p: Point, ring: Ring, c: Point, d: Point, k: nat)
    requires k < |ring| && Ahead(p, ring, c, d) && InsideAll(p, ring)
    ensures From(p, ring[k], Next(ring, k)) == 0.0
  {
    hide Slope, Lead, Inside, From;
    var n := |ring| - 1;
    SlopesFall(p, ring, c, d, 0, k);
    SlopesFall(p, ring, c, d, k, n);
    assert Inside(p, ring[n], Next(ring, n)) && Next(ring, n) == ring[0];
    TurnLowersSlope(p, ring[n], ring[0], c, d);
    assert Inside(p, ring[k], Next(ring, k));
    if k < n {
      SlopesFall(p, ring, c, d, 0, k + 1);
      SlopesFall(p, ring, c, d, k + 1, n);
    }
    TurnLowersSlope(p, ring[k], Next(ring, k), c, d);
  }

  // Where segment i of the path along v and ps starts.
  function Start(v: Point, ps: Ring, i: nat): Point
    requires i < |ps|
  {
    if i == 0 then v else ps[i - 1]
  }

  lemma {:induction false} FlatPath(o: Point, v: Point, ps: Ring)
    requires forall i :: 0 <= i < |ps| ==> From(o, Start(v, ps, i), ps[i]) == 0.0
    ensures Path(o, v, ps) == 0.0
    decreases |ps|
  {
    if ps != [] {
      var rest := ps[1..];
      assert From(o, Start(v, ps, 0), ps[0]) == 0.0;
      forall i | 0 <= i < |rest| ensures From(o, Start(ps[0], rest, i), rest[i]) == 0.0 {
        assert From(o, Start(v, ps, i + 1), ps[i + 1]) == 0.0;
      }
      FlatPath(o, ps[0], rest);
    }
  }

  lemma FlatRing(o: Point, ring: Ring)
    requires ring != []
    requires forall k :: 0 <= k < |ring| ==> From(o, ring[k], Next(ring, k)) == 0.0
    ensures Area2(ring) == 0.0
  {
    hide From;
    AreaIsClosedPath(o, ring);
    var v := ring[|ring| - 1];
    forall i | 0 <= i < |ring| ensures From(o, Start(v, ring, i), ring[i]) == 0.0 {
      var k := if i == 0 then |ring| - 1 else i - 1;
      assert From(o, ring[k], Next(ring, k)) == 0.0;
    }
    FlatPath(o, v, ring);
  }

  // ---------- rings on one line ----------

  ghost predicate Collinear(ring: Ring) {
    forall i, j, k :: 0 <= i < |ring| && 0 <= j < |ring| && 0 <= k < |ring| ==> Side(ring[k], ring[i], ring[j]) == 0.0
  }

  lemma CollinearHasNoArea(ring: Ring)
    requires Collinear(ring)
    ensures Area2(ring) == 0.0
  {
    if ring != [] {
      forall k | 0 <= k < |ring| ensures From(ring[0], ring[k], Next(ring, k)) == 0.0 {
        var n := if k + 1 == |ring| then 0 else k + 1;
        assert Side(ring[0], ring[k], ring[n]) == 0.0;
        SideIsFrom(ring[0], ring[k], ring[n]);
      }
      FlatRing(ring[0], ring);
    }
  }

  lemma CollinearReversed(ring: Ring)
    ensures Collinear(Ccw(ring)) <==> Collinear(ring)
  {
    var r, n := Reversed(ring), |ring| - 1;
    if Collinear(ring) {
      forall i, j, k | 0 <= i <= n && 0 <= j <= n && 0 <= k <= n ensures Side(r[k], r[i], r[j]) == 0.0 {
        assert Side(ring[n - k], ring[n - i], ring[n - j]) == 0.0;
      }
    }
    if Collinear(r) {
      forall i, j, k | 0 <= i <= n && 0 <= j <= n && 0 <= k <= n ensures Side(ring[k], ring[i], ring[j]) == 0.0 {
        assert Side(r[n - k], r[n - i], r[n - j]) == 0.0;
      }
    }
  }

  // Two points in line with p and a third are in line with p.
  lemma InLine(p: Point, u: Point, v: Point, w: Point)
    requires v != p && From(p, u, v) == 0.0 && From(p, v, w) == 0.0
    ensures From(p, u, w) == 0.0
  {
    var ux, uy, vx, vy, wx, wy := u.x - p.x, u.y - p.y, v.x - p.x, v.y - p.y, w.x - p.x, w.y - p.y;
    ParallelTwice(ux, uy, vx, vy, wx, wy);
  }

  lemma ParallelTwice(ux: real, uy: real, vx: real, vy: real, wx: real, wy: real)
    requires (vx != 0.0 || vy != 0.0) && ux * vy - vx * uy == 0.0 && vx * wy - wx * vy == 0.0
    ensures ux * wy - wx * uy == 0.0
  {
    var c := ux * wy - wx * uy;
    if vx != 0.0 {
      assert vx * c == ux * (vx * wy) - wx * (vx * uy) == ux * (wx * vy) - wx * (ux * vy) == 0.0;
    } else {
      assert vy * c == wy * (ux * vy) - uy * (wx * vy) == wy * (vx * uy) - uy * (vx * wy) == 0.0;
    }
  }

  lemma FromBackwards(p: Point, u: Point, v: Point)
    ensures From(p, u, v) == -From(p, v, u)
  {
  }

  lemma {:induction false} AllInLine(p: Point, ring: Ring, k: nat)
    requires k < |ring| && p !in ring
    requires forall j :: 0 <= j < |ring| ==> From(p, ring[j], Next(ring, j)) == 0.0
    ensures From(p, ring[0], ring[k]) == 0.0
  {
    hide From;
    if k == 0 {
      FromBackwards(p, ring[0], ring[0]);
    } else {
      AllInLine(p, ring, k - 1);
      assert Next(ring, k - 1) == ring[k];
      assert From(p, ring[k - 1], Next(ring, k - 1)) == 0.0;
      InLine(p, ring[0], ring[k - 1], ring[k]);
    }
  }

  lemma TriangleFrom(p: Point, u: Point, v: Point, w: Point)
    ensures Side(w, u, v) == From(p, u, v) + From(p, v, w) + From(p, w, u)
  {
    var ux, uy, vx, vy, wx, wy := u.x - p.x, u.y - p.y, v.x - p.x, v.y - p.y, w.x - p.x, w.y - p.y;
    assert (v.x - u.x) * (w.y - u.y) == vx * wy - vx * uy - ux * wy + ux * uy;
    assert (v.y - u.y) * (w.x - u.x) == vy * wx - vy * ux - uy * wx + uy * ux;
  }

  // No edge turns round a point off the ring only when the ring is on one line.
  lemma FlatIsCollinear(p: Point, ring: Ring)
    requires p !in ring
    requires forall j :: 0 <= j < |ring| ==> From(p, ring[j], Next(ring, j)) == 0.0
    ensures Collinear(ring)
  {
    hide From, Side;
    forall i, j | 0 <= i < |ring| && 0 <= j < |ring| ensures From(p, ring[i], ring[j]) == 0.0 {
      AllInLine(p, ring, i);
      AllInLine(p, ring, j);
      FromBackwards(p, ring[0], ring[i]);
      InLine(p, ring[i], ring[0], ring[j]);
    }
    forall i, j, k | 0 <= i < |ring| && 0 <= j < |ring| && 0 <= k < |ring| ensures Side(ring[k], ring[i], ring[j]) == 0.0 {
      TriangleFrom(p, ring[i], ring[j], ring[k]);
    }
  }

  lemma {:induction false} NonNegativePath(o: Point, v: Point, ps: Ring)
    requires forall i :: 0 <= i < |ps| ==> From(o, Start(v, ps, i), ps[i]) >= 0.0
    ensures Path(o, v, ps) >= 0.0
    ensures Path(o, v, ps) == 0.0 ==> forall i :: 0 <= i < |ps| ==> From(o, Start(v, ps, i), ps[i]) == 0.0
    decreases |ps|
  {
    if ps != [] {
      hide From;
      var rest := ps[1..];
      assert From(o, Start(v, ps, 0), ps[0]) >= 0.0;
      forall i | 0 <= i < |rest| ensures From(o, Start(ps[0], rest, i), rest[i]) == From(o, Start(v, ps, i + 1), ps[i + 1]) {
      }
      NonNegativePath(o, ps[0], rest);
      if Path(o, v, ps) == 0.0 {
        forall i | 0 <= i < |ps| ensures From(o, Start(v, ps, i), ps[i]) == 0.0 {
          if i > 0 {
            assert From(o, Start(ps[0], rest, i - 1), rest[i - 1]) == 0.0;
          }
        }
      }
    }
  }

  // Seen from a point inside every edge a ring has non-negative area, and none only when it is flat.
  lemma InsideAllArea(ring: Ring, p: Point)
    requires ring != [] && InsideAll(p, ring)
    ensures Area2(ring) >= 0.0
    ensures Area2(ring) == 0.0 ==> forall k :: 0 <= k < |ring| ==> From(p, ring[k], Next(ring, k)) == 0.0
  {
    AreaIsClosedPath(p, ring);
    var v := ring[|ring| - 1];
    forall i | 0 <= i < |ring| ensures From(p, Start(v, ring, i), ring[i]) >= 0.0 {
      var k := if i == 0 then |ring| - 1 else i - 1;
      assert Inside(p, ring[k], Next(ring, k));
      SideIsFrom(p, ring[k], ring[i]);
    }
    NonNegativePath(p, v, ring);
    if Area2(ring) == 0.0 {
      forall k | 0 <= k < |ring| ensures From(p, ring[k], Next(ring, k)) == 0.0 {
        var i := if k + 1 == |ring| then 0 else k + 1;
        assert From(p, Start(v, ring, i), ring[i]) == 0.0;
      }
    }
  }

  // ---------- inside every edge, inside the hull ----------

  /** A point inside every edge of a ring that is not on one line lies in every half-plane that holds the ring. */
  lemma InsideAllIsInHull(ring: Ring, p: Point, c: Point, d: Point)
    requires !Collinear(ring) && InsideAll(p, ring) && AllInside(ring, c, d)
    ensures Inside(p, c, d)
  {
    InsideAllArea(ring, p);
    if Area2(ring) == 0.0 {
      if p !in ring { FlatIsCollinear(p, ring); }
    } else if !Inside(p, c, d) {
      forall i | 0 <= i < |ring| ensures Lead(p, ring[i], c, d) > 0.0 {
        LeadIsSideGap(p, ring[i], c, d);
        assert Inside(ring[i], c, d);
      }
      forall k | 0 <= k < |ring| ensures From(p, ring[k], Next(ring, k)) == 0.0 {
        NoEdgeTurns(p, ring, c, d, k);
      }
      FlatRing(p, ring);
    }
  }

  /**
   What clipping returns lies in every half-plane that holds the subject, and in
   every one that holds a clip ring that is not on one line.
   */
  lemma ClipInHulls(subject: Ring, clip: Ring, p: Point, c: Point, d: Point)
    requires p in Clip(subject, clip)
    requires AllInside(subject, c, d) || (AllInside(clip, c, d) && !Collinear(clip))
    ensures Inside(p, c, d)
  {
    ClipContained(subject, clip, p);
    if !AllInside(subject, c, d) {
      CollinearReversed(clip);
      CcwKeepsPoints(clip);
      InsideAllIsInHull(Ccw(clip), p, c, d);
    }
  }

  // ---------- clip rings on one line ----------

  lemma EmitKeepsPoint(prev: Point, q: Point, a: Point, b: Point)
    requires Inside(q, a, b)
    ensures q in Emit(prev, q, a, b)
  {
  }

  lemma {:induction false} PassKeepsPoint(ring: Ring, a: Point, b: Point, n: nat, q: Point)
    requires n <= |ring| && q in ring[..n] && Inside(q, a, b)
    ensures q in PassUpTo(ring, a, b, n)
  {
    hide Inside, Emit;
    assert ring[..n] == ring[..n - 1] + [ring[n - 1]];
    if q in ring[..n - 1] {
      PassKeepsPoint(ring, a, b, n - 1, q);
    } else {
      EmitKeepsPoint(Prev(ring, n - 1), q, a, b);
    }
  }

  lemma {:induction false} ClipFromKeepsPoint(output: Ring, clip: Ring, i: nat, q: Point)
    requires i <= |clip| && q in output
    requires forall k :: 0 <= k < |clip| ==> Inside(q, clip[k], Next(clip, k))
    ensures q in ClipFrom(output, clip, i)
    decreases |clip| - i
  {
    hide Inside, PassUpTo;
    if i < |clip| {
      assert output[..|output|] == output;
      PassKeepsPoint(output, clip[i], Next(clip, i), |output|, q);
      ClipFromKeepsPoint(Pass(output, clip[i], Next(clip, i)), clip, i + 1, q);
    }
  }

  /** A vertex of the subject inside every edge of the clip ring is always returned. */
  lemma InnerVertexKept(subject: Ring, clip: Ring, q: Point)
    requires |subject| >= 3 && |clip| >= 3 && q in subject
    requires InsideAll(q, Ccw(clip))
    ensures q in Clip(subject, clip)
  {
    CcwKeepsPoints(subject);
    ClipFromKeepsPoint(Ccw(subject), Ccw(clip), 0, q);
  }

  // In line with every two vertices of the ring.
  ghost predicate OnLineOf(q: Point, ring: Ring) {
    forall i, j :: 0 <= i < |ring| && 0 <= j < |ring| ==> Side(q, ring[i], ring[j]) == 0.0
  }

  /** A clip ring on one line keeps every vertex on that line, however far from the ring. */
  lemma LineKeepsAll(subject: Ring, clip: Ring, q: Point)
    requires |subject| >= 3 && |clip| >= 3 && q in subject
    requires Collinear(clip) && OnLineOf(q, clip)
    ensures q in Clip(subject, clip)
  {
    CollinearHasNoArea(clip);
    assert Ccw(clip) == clip;
    forall k | 0 <= k < |clip| ensures Inside(q, clip[k], Next(clip, k)) {
      var n := if k + 1 == |clip| then 0 else k + 1;
      assert Side(q, clip[k], clip[n]) == 0.0;
    }
    InnerVertexKept(subject, clip, q);
  }
}
