/**
 What region clipping returns: a point inside every edge of the subject and of the
 clip ring is inside every edge of the result, whatever the rings; and when the
 subject is convex and the result does not lie on one line, there are no others.

 Seen from such a point a pass replaces each stretch of the ring beyond the edge
 by a straight step along the edge's line. Beyond the line the stretch turns
 counter-clockwise by less than a half turn, and so does the step.
 */
module ClipRegion {
  import opened Options
  import opened PolygonClip
  import opened ClipArea
  import opened ClipHull

  // Every step of the path along v and ps turns counter-clockwise round p, or not at all.
  predicate Rounds(p: Point, v: Point, ps: Ring)
    decreases |ps|
  {
    ps == [] || (From(p, v, ps[0]) >= 0.0 && Rounds(p, ps[0], ps[1..]))
  }

  lemma {:induction false} RoundsAppend(p: Point, v: Point, ps: Ring, qs: Ring)
    ensures Rounds(p, v, ps + qs) <==> Rounds(p, v, ps) && Rounds(p, Last(v, ps), qs)
    decreases |ps|
  {
    if ps == [] {
      assert ps + qs == qs;
    } else {
      assert (ps + qs)[1..] == ps[1..] + qs;
      RoundsAppend(p, ps[0], ps[1..], qs);
    }
  }

  lemma {:induction false} RoundsAt(p: Point, v: Point, ps: Ring, i: nat)
    requires Rounds(p, v, ps) && i < |ps|
    ensures From(p, Start(v, ps, i), ps[i]) >= 0.0
    decreases |ps|
  {
    if i > 0 {
      RoundsAt(p, ps[0], ps[1..], i - 1);
    }
  }

  lemma ClosedRounds(p: Point, ring: Ring)
    requires ring != [] && Rounds(p, ring[|ring| - 1], ring)
    ensures InsideAll(p, ring)
  {
    hide From, Side, Rounds;
    forall k | 0 <= k < |ring| ensures Inside(p, ring[k], Next(ring, k)) {
      var i := if k + 1 == |ring| then 0 else k + 1;
      RoundsAt(p, ring[|ring| - 1], ring, i);
      SideIsFrom(p, ring[k], ring[i]);
    }
  }

  // ---------- beyond the edge ----------

  lemma LeadBeyond(p: Point, v: Point, a: Point, b: Point)
    ensures Lead(p, v, b, a) == Side(p, a, b) - Side(v, a, b)
  {
    LeadIsSideGap(p, v, b, a);
    SideBackwards(p, a, b);
    SideBackwards(v, a, b);
  }

  // A slope that falls is a counter-clockwise turn.
  lemma FallingSlopeTurns(p: Point, v: Point, w: Point, c: Point, d: Point)
    requires Lead(p, v, c, d) > 0.0 && Lead(p, w, c, d) > 0.0
    requires Slope(p, v, c, d) >= Slope(p, w, c, d)
    ensures From(p, v, w) >= 0.0
  {
    if From(p, v, w) < 0.0 {
      hide From, Slope;
      FromBackwards(p, v, w);
      SideIsFrom(p, w, v);
      TurnLowersSlope(p, w, v, c, d);
    }
  }

  // Where the clipped path stands, v, after ring vertex q: at q, or on the line where the ring left, not past q.
  predicate Trails(p: Point, v: Point, q: Point, a: Point, b: Point) {
    if Inside(q, a, b) then v == q
    else
      && Side(v, a, b) == 0.0
      && (Side(p, a, b) > 0.0 ==>
           && Lead(p, v, b, a) > 0.0 && Lead(p, q, b, a) > 0.0
           && Slope(p, v, b, a) >= Slope(p, q, b, a))
  }

  // A step round p that ends or starts on the line, seen from p.
  lemma SlopeFalls(p: Point, v: Point, w: Point, a: Point, b: Point)
    requires Side(p, a, b) > 0.0 && Side(v, a, b) <= 0.0 && Side(w, a, b) <= 0.0 && From(p, v, w) >= 0.0
    ensures Lead(p, v, b, a) > 0.0 && Lead(p, w, b, a) > 0.0
    ensures Slope(p, v, b, a) >= Slope(p, w, b, a)
  {
    hide From, Side, Slope;
    LeadBeyond(p, v, a, b);
    LeadBeyond(p, w, a, b);
    SideIsFrom(p, v, w);
    TurnLowersSlope(p, v, w, b, a);
  }

  lemma PartTurns(p: Point, u: Point, w: Point, t: real)
    requires 0.0 <= t <= 1.0 && From(p, u, w) >= 0.0
    ensures From(p, u, Along(u, w, t)) >= 0.0 && From(p, Along(u, w, t), w) >= 0.0
  {
    FromSplit(p, u, w, t);
    NonNegative(t, From(p, u, w));
    NonNegative(1.0 - t, From(p, u, w));
  }

  // The cut of a segment across the edge.
  lemma CutTurns(p: Point, u: Point, w: Point, a: Point, b: Point) returns (x: Point)
    requires Inside(u, a, b) != Inside(w, a, b) && From(p, u, w) >= 0.0
    ensures Intersect(u, w, a, b) == Some(x) && Side(x, a, b) == 0.0
    ensures From(p, u, x) >= 0.0 && From(p, x, w) >= 0.0
  {
    hide From, Intersect;
    IntersectCuts(u, w, a, b);
    var t := Side(u, a, b) / (Side(u, a, b) - Side(w, a, b));
    x := Along(u, w, t);
    PartTurns(p, u, w, t);
  }

  // From where the path waits on the line to where the ring comes back.
  lemma StepAlongLine(p: Point, v: Point, u: Point, x: Point, a: Point, b: Point)
    requires a != b && Inside(p, a, b) && !Inside(u, a, b) && Trails(p, v, u, a, b)
    requires Side(x, a, b) == 0.0 && From(p, u, x) >= 0.0
    ensures From(p, v, x) >= 0.0
  {
    if Side(p, a, b) > 0.0 {
      hide From, Side, Slope;
      SlopeFalls(p, u, x, a, b);
      LeadBeyond(p, v, a, b);
      FallingSlopeTurns(p, v, x, b, a);
    } else {
      OnLineNoArea(p, v, x, a, b);
    }
  }

  lemma ShortRounds(p: Point, v: Point, x: Point, w: Point)
    ensures Rounds(p, v, [x]) <==> From(p, v, x) >= 0.0
    ensures Rounds(p, v, [x, w]) <==> From(p, v, x) >= 0.0 && From(p, x, w) >= 0.0
  {
    assert [x, w][1..] == [w] && [x][1..] == [] && [w][1..] == [];
    assert Rounds(p, x, [w]) <==> From(p, x, w) >= 0.0;
  }

  lemma EmitRounds(p: Point, v: Point, u: Point, w: Point, a: Point, b: Point)
    requires a != b && Inside(p, a, b) && Trails(p, v, u, a, b) && From(p, u, w) >= 0.0
    ensures Rounds(p, v, Emit(u, w, a, b)) && Trails(p, Last(v, Emit(u, w, a, b)), w, a, b)
  {
    hide From, Side, Slope, Intersect;
    if Inside(u, a, b) != Inside(w, a, b) {
      var x := CutTurns(p, u, w, a, b);
      if Inside(w, a, b) {
        StepAlongLine(p, v, u, x, a, b);
        ShortRounds(p, v, x, w);
      } else {
        ShortRounds(p, v, x, x);
        if Side(p, a, b) > 0.0 { SlopeFalls(p, x, w, a, b); }
      }
    } else if Inside(w, a, b) {
      ShortRounds(p, v, w, w);
    } else if Side(p, a, b) > 0.0 {
      SlopeFalls(p, u, w, a, b);
    }
  }

  // ---------- a whole pass ----------

  lemma EmptyPass(a: Point, b: Point)
    ensures Pass([], a, b) == []
  {
  }

  lemma InsideNothing(p: Point)
    ensures InsideAll(p, [])
  {
  }

  lemma InsideEdge(p: Point, ring: Ring, k: nat)
    requires InsideAll(p, ring) && k < |ring|
    ensures Inside(p, ring[k], Next(ring, k))
  {
  }

  lemma {:induction false} PassRounds(p: Point, v: Point, ring: Ring, a: Point, b: Point, n: nat)
    requires a != b && Inside(p, a, b) && InsideAll(p, ring) && n <= |ring| && ring != []
    requires Trails(p, v, ring[|ring| - 1], a, b)
    ensures (var out := PassUpTo(ring, a, b, n);
             && Rounds(p, v, out)
             && Trails(p, Last(v, out), ring[if n == 0 then |ring| - 1 else n - 1], a, b))
  {
    hide Trails, Emit, From, Side, Inside, InsideAll, Rounds;
    if n == 0 {
      NoSteps(p, v);
    } else {
      var done, u, w := PassUpTo(ring, a, b, n - 1), Prev(ring, n - 1), ring[n - 1];
      PassRounds(p, v, ring, a, b, n - 1);
      var k := if n == 1 then |ring| - 1 else n - 2;
      assert ring[k] == u && Next(ring, k) == w;
      InsideEdge(p, ring, k);
      InsideTurns(p, u, w);
      EmitRounds(p, Last(v, done), u, w, a, b);
      RoundsAppend(p, v, done, Emit(u, w, a, b));
      LastAppend(v, done, Emit(u, w, a, b));
    }
  }

  lemma NoSteps(p: Point, v: Point)
    ensures Rounds(p, v, [])
  {
  }

  lemma InsideTurns(p: Point, u: Point, w: Point)
    requires Inside(p, u, w)
    ensures From(p, u, w) >= 0.0
  {
    SideIsFrom(p, u, w);
  }

  lemma LastAppend(v: Point, ps: Ring, qs: Ring)
    ensures Last(v, ps + qs) == Last(Last(v, ps), qs)
  {
  }

  // Some place where the path may stand after q.
  lemma Standing(p: Point, q: Point, a: Point, b: Point) returns (v: Point)
    requires Inside(p, a, b)
    ensures Trails(p, v, q, a, b)
  {
    if Inside(q, a, b) {
      v := q;
    } else if Side(p, a, b) > 0.0 {
      assert From(p, p, q) >= 0.0 by { FromSelf(p, q); }
      v := CutTurns(p, p, q, a, b);
      SlopeFalls(p, v, q, a, b);
    } else {
      v := p;
    }
  }

  lemma FromSelf(p: Point, q: Point)
    ensures From(p, p, q) == 0.0
  {
  }

  /** A pass loses no point that is inside every edge of the ring and inside the pass's own edge. */
  lemma PassLosesNothing(p: Point, ring: Ring, a: Point, b: Point)
    requires InsideAll(p, ring) && Inside(p, a, b)
    ensures InsideAll(p, Pass(ring, a, b))
  {
    hide Trails, Rounds, InsideAll, Inside, PassUpTo;
    var out := Pass(ring, a, b);
    if a == b {
      ShortEdgeKeepsAll(ring, a);
    } else if ring == [] {
      EmptyPass(a, b);
      InsideNothing(p);
    } else if out == [] {
      InsideNothing(p);
    } else {
      var end := ring[|ring| - 1];
      var v := Standing(p, end, a, b);
      PassRounds(p, v, ring, a, b, |ring|);
      PassRounds(p, out[|out| - 1], ring, a, b, |ring|);
      ClosedRounds(p, out);
    }
  }

  lemma {:induction false} ClipFromLosesNothing(p: Point, output: Ring, clip: Ring, i: nat)
    requires i <= |clip| && InsideAll(p, output) && InsideAll(p, clip)
    ensures InsideAll(p, ClipFrom(output, clip, i))
    decreases |clip| - i
  {
    hide InsideAll, Inside, Pass;
    if i == |clip| || output == [] {
      InsideNothing(p);
    } else {
      InsideEdge(p, clip, i);
      PassLosesNothing(p, output, clip[i], Next(clip, i));
      ClipFromLosesNothing(p, Pass(output, clip[i], Next(clip, i)), clip, i + 1);
    }
  }

  /** Clipping loses no point: what is inside every edge of both rings is inside every edge of the result. */
  lemma ClipLosesNothing(subject: Ring, clip: Ring, p: Point)
    requires InsideAll(p, Ccw(subject)) && InsideAll(p, Ccw(clip))
    ensures InsideAll(p, Clip(subject, clip))
  {
    if |subject| >= 3 && |clip| >= 3 {
      ClipFromLosesNothing(p, Ccw(subject), Ccw(clip), 0);
    }
  }

  // Every vertex is inside every edge.
  ghost predicate Convex(ring: Ring) {
    forall k :: 0 <= k < |ring| ==> AllInside(ring, ring[k], Next(ring, k))
  }

  /**
   Clipping a convex subject is intersection: unless the result lies on one line,
   the points inside it are exactly those inside both rings.
   */
  lemma ClipIsIntersection(subject: Ring, clip: Ring, p: Point)
    requires Convex(Ccw(subject)) && !Collinear(Clip(subject, clip))
    ensures InsideAll(p, Clip(subject, clip)) <==> InsideAll(p, Ccw(subject)) && InsideAll(p, Ccw(clip))
  {
    hide Clip, Collinear, Inside;
    var out, s, c := Clip(subject, clip), Ccw(subject), Ccw(clip);
    if InsideAll(p, out) {
      CcwKeepsPoints(subject);
      forall q | q in out
        ensures forall k :: 0 <= k < |s| ==> Inside(q, s[k], Next(s, k))
        ensures forall k :: 0 <= k < |c| ==> Inside(q, c[k], Next(c, k))
      {
        ClipContained(subject, clip, q);
        forall k | 0 <= k < |s| ensures Inside(q, s[k], Next(s, k)) {
          assert AllInside(s, s[k], Next(s, k));
          assert AllInside(subject, s[k], Next(s, k));
        }
      }
      forall k | 0 <= k < |s| ensures Inside(p, s[k], Next(s, k)) {
        InsideAllIsInHull(out, p, s[k], Next(s, k));
      }
      forall k | 0 <= k < |c| ensures Inside(p, c[k], Next(c, k)) {
        InsideAllIsInHull(out, p, c[k], Next(c, k));
      }
    } else if InsideAll(p, s) && InsideAll(p, c) {
      ClipLosesNothing(subject, clip, p);
    }
  }
}
