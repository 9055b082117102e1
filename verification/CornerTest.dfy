/**
 Exactly when the corner test for a convex parcel is right. The squeezed ring
 writes each vertex that is repeated at once, the closing one included, once. A
 ring that is not on one line is convex and passes its least vertex once if and
 only if the corners of the squeezed ring turn one way and it goes out and comes
 back once.

 In a convex ring a corner where the ring stops coming back and goes out again
 is at the least vertex: from anywhere else the least vertex would lie inside
 both edges only if they pointed in opposite directions along one line.
 */
module CornerTest {
  import opened PolygonClip
  import opened ClipArea
  import opened ClipHull
  import opened ClipRegion
  import opened OverlapBox
  import opened ConvexRing
  import opened SqueezedRing

  // Further out: to the right, or straight up.
  predicate Before(p: Point, q: Point) { Out(Minus(q, p)) }

  ghost predicate LeastAt(ring: Ring, s: nat)
    requires s < |ring|
  {
    forall i :: 0 <= i < |ring| && i != s ==> Before(ring[s], ring[i])
  }

  // The ring passes its least vertex once.
  ghost predicate LeastOnce(ring: Ring) {
    exists s :: 0 <= s < |ring| && LeastAt(ring, s)
  }

  lemma Compare(p: Point, q: Point)
    ensures Before(p, q) || Before(q, p) || p == q
    ensures Before(p, q) ==> p != q && !Before(q, p)
    ensures Out(Neg(Minus(q, p))) <==> Before(q, p)
  {
  }

  lemma BeforeTransitive(p: Point, q: Point, r: Point)
    requires Before(p, q) && Before(q, r)
    ensures Before(p, r)
  {
  }

  lemma EdgeIsStep(ring: Ring, i: nat)
    requires ring != []
    ensures Edge(ring, i) == Minus(At(ring, i + 1), At(ring, i))
  {
  }

  // ---------- a ring that sweeps once has one least vertex ----------

  lemma {:induction false} GoesOut(ring: Ring, s: nat, m: nat, i: nat)
    requires 0 < m < |ring| && Sweep(ring, s, m, true) && 0 < i <= m
    ensures Before(At(ring, s), At(ring, s + i))
    decreases i
  {
    hide Sweep, Edge, Out, At;
    SweepAt(ring, s, m, true, i - 1);
    EdgeIsStep(ring, s + i - 1);
    if i > 1 {
      GoesOut(ring, s, m, i - 1);
      BeforeTransitive(At(ring, s), At(ring, s + i - 1), At(ring, s + i));
    }
  }

  lemma {:induction false} CameBack(ring: Ring, s: nat, m: nat, i: nat)
    requires 0 < m < |ring| && Sweep(ring, s, m, true) && m <= i < |ring|
    ensures Before(At(ring, s), At(ring, s + i))
    decreases |ring| - i
  {
    hide Sweep, Edge, Out, At;
    SweepAt(ring, s, m, true, i);
    EdgeIsStep(ring, s + i);
    Compare(At(ring, s + i), At(ring, s + i + 1));
    if i + 1 == |ring| {
      Periodic(ring, s);
    } else {
      CameBack(ring, s, m, i + 1);
      BeforeTransitive(At(ring, s), At(ring, s + i + 1), At(ring, s + i));
    }
  }

  lemma SweepLeast(ring: Ring, s: nat, m: nat)
    requires s < |ring| && 0 < m < |ring| && Sweep(ring, s, m, true)
    ensures LeastAt(ring, s)
  {
    hide Sweep, Before;
    forall j: nat | j < |ring| && j != s ensures Before(ring[s], ring[j]) {
      AtTurns(ring, s);
      AtTurns(ring, j);
      var i := if j > s then j - s else j + |ring| - s;
      if i <= m { GoesOut(ring, s, m, i); } else { CameBack(ring, s, m, i); }
    }
  }

  // ---------- the low corners of a convex ring ----------

  // At vertex i the ring has come back and goes out again.
  predicate LowAt(ring: Ring, i: nat)
    requires ring != []
  {
    i > 0 && Out(Neg(Edge(ring, i - 1))) && Out(Edge(ring, i))
  }

  lemma {:induction false} InsideEdgeAt(ring: Ring, i: nat, q: Point)
    requires Convex(ring) && q in ring
    ensures Cross(Edge(ring, i), Minus(q, At(ring, i))) >= 0.0
    decreases i
  {
    hide At, Edge, Cross, Side;
    if i < |ring| {
      AtTurns(ring, i);
      EdgeIsStep(ring, i);
      assert AllInside(ring, ring[i], Next(ring, i));
      StepSide(q, ring[i], Next(ring, i));
    } else {
      InsideEdgeAt(ring, i - |ring|, q);
      Periodic(ring, i - |ring|);
    }
  }

  lemma StepSide(q: Point, a: Point, b: Point)
    ensures Side(q, a, b) == Cross(Minus(b, a), Minus(q, a)) == Cross(Minus(b, a), Minus(q, b))
  {
  }

  lemma {:induction false} AtIsVertex(ring: Ring, i: nat)
    requires ring != []
    ensures At(ring, i) in ring
    decreases i
  {
    if i >= |ring| { AtIsVertex(ring, i - |ring|); }
  }

  // Seen from vertex i, every vertex is left of the edge in and left of the edge out.
  lemma LeftOfCorner(ring: Ring, i: nat, q: Point)
    requires Convex(ring) && q in ring && i > 0
    ensures Cross(Edge(ring, i - 1), Minus(q, At(ring, i))) >= 0.0
    ensures Cross(Edge(ring, i), Minus(q, At(ring, i))) >= 0.0
  {
    hide Convex, Cross, At;
    InsideEdgeAt(ring, i - 1, q);
    InsideEdgeAt(ring, i, q);
    StepSide(q, At(ring, i - 1), At(ring, i));
  }

  lemma ConvexIsLeft(ring: Ring)
    requires ring != [] && Convex(ring)
    ensures Left(ring)
  {
    hide Convex, Cross, At;
    forall i: nat | i < |ring| ensures Cross(Edge(ring, i), Edge(ring, i + 1)) >= 0.0 {
      AtIsVertex(ring, i + 2);
      LeftOfCorner(ring, i + 1, At(ring, i + 2));
      EdgeIsStep(ring, i + 1);
    }
  }

  // Both edges of a straight low corner point away from it along one line, and both have d on the left.
  lemma StraightLow(e: Point, f: Point, d: Point)
    requires Out(Neg(e)) && Out(f) && Cross(e, f) == 0.0
    requires Cross(e, d) >= 0.0 && Cross(f, d) >= 0.0
    ensures Cross(f, d) == 0.0
  {
    CrossIdentity(e, d, f);
    CrossToward(d, f, true);
    OppositeScales(Cross(e, d), Cross(f, d), e, f);
  }

  lemma OppositeScales(a: real, b: real, e: Point, f: Point)
    requires Out(Neg(e)) && Out(f) && a >= 0.0 && b >= 0.0
    requires a * f.x == b * e.x && a * f.y == b * e.y
    ensures b == 0.0
  {
    NonNegative(a, f.x);
    NonNegative(b, -e.x);
    assert b * -e.x == -(b * e.x);
    if b > 0.0 {
      if e.x < 0.0 {
        Positive(b, -e.x);
      } else {
        Positive(b, -e.y);
        assert b * -e.y == -(b * e.y);
        ZeroOrAhead(a, f);
      }
    }
  }

  lemma OnEdgeLine(ring: Ring, i: nat)
    requires ring != [] && At(ring, i) != At(ring, i + 1)
    requires forall q <- ring :: Cross(Edge(ring, i), Minus(q, At(ring, i))) == 0.0
    ensures Collinear(ring)
  {
    hide Edge, At, Cross, Minus;
    var a, b := At(ring, i), At(ring, i + 1);
    EdgeIsStep(ring, i);
    forall q | q in ring ensures Side(q, a, b) == 0.0 { StepSide(q, a, b); }
    forall k, l, j | 0 <= k < |ring| && 0 <= l < |ring| && 0 <= j < |ring| ensures Side(ring[j], ring[k], ring[l]) == 0.0 {
      assert ring[k] in ring && ring[l] in ring && ring[j] in ring;
      OnLineNoArea(ring[j], ring[k], ring[l], a, b);
      SideIsFrom(ring[j], ring[k], ring[l]);
    }
  }

  lemma LowCornerTurns(ring: Ring, i: nat)
    requires ring != [] && Convex(ring) && !Collinear(ring) && LowAt(ring, i)
    ensures Cross(Edge(ring, i - 1), Edge(ring, i)) > 0.0
  {
    hide Convex, Collinear, Cross, At, Edge, Out;
    var e, f := Edge(ring, i - 1), Edge(ring, i);
    ConvexIsLeft(ring);
    LeftAt(ring, i - 1);
    if Cross(e, f) == 0.0 {
      forall q | q in ring ensures Cross(f, Minus(q, At(ring, i))) == 0.0 {
        LeftOfCorner(ring, i, q);
        StraightLow(e, f, Minus(q, At(ring, i)));
      }
      EdgeIsStep(ring, i);
      Compare(At(ring, i), At(ring, i + 1));
      OnEdgeLine(ring, i);
    }
  }

  lemma LowCornerIsLeast(ring: Ring, i: nat, q: Point)
    requires ring != [] && Convex(ring) && !Collinear(ring) && LowAt(ring, i) && q in ring
    ensures !Before(q, At(ring, i))
  {
    hide Convex, Collinear, Cross, At, Edge, Out;
    var e, f, d := Edge(ring, i - 1), Edge(ring, i), Minus(q, At(ring, i));
    if Before(q, At(ring, i)) {
      Compare(At(ring, i), q);
      LowCornerTurns(ring, i);
      LeftOfCorner(ring, i, q);
      CrossToward(e, d, false);
      CrossToward(d, f, false);
      CrossToward(e, f, false);
      assert Neg(Neg(f)) == f;
      OutTransitive(Neg(e), Neg(d), f);
    }
  }

  // ---------- a convex ring that passes its least vertex once sweeps once ----------

  lemma OnlyLowCorner(ring: Ring, s: nat, i: nat)
    requires Convex(ring) && !Collinear(ring) && s < |ring| && LeastAt(ring, s) && s < i < s + |ring|
    ensures !LowAt(ring, i)
  {
    hide Convex, Collinear, Before, LowAt;
    var j := if i < |ring| then i else i - |ring|;
    AtTurns(ring, j);
    assert Before(ring[s], ring[j]);
    if LowAt(ring, i) { LowCornerIsLeast(ring, i, ring[s]); }
  }

  lemma {:induction false} EdgeMoves(ring: Ring, i: nat)
    requires ring != [] && Moves(ring)
    ensures Out(Edge(ring, i)) || Out(Neg(Edge(ring, i)))
    decreases i
  {
    if i < |ring| {
      AtTurns(ring, i);
      EdgeIsStep(ring, i);
      Compare(ring[i], Next(ring, i));
    } else {
      EdgeMoves(ring, i - |ring|);
      Periodic(ring, i - |ring|);
    }
  }

  lemma LeastEdges(ring: Ring, s: nat)
    requires s < |ring| && |ring| > 1 && LeastAt(ring, s)
    ensures Out(Edge(ring, s)) && Out(Neg(Edge(ring, s + |ring| - 1)))
  {
    hide Out, At, Edge;
    var n := |ring|;
    AtTurns(ring, s);
    EdgeIsStep(ring, s);
    var j := if s == 0 then n - 1 else s - 1;
    AtTurns(ring, j);
    EdgeIsStep(ring, s + n - 1);
    Compare(ring[j], ring[s]);
  }

  // Once it comes back, it comes back all the way.
  lemma {:induction false} StaysBack(ring: Ring, s: nat, m: nat, i: nat)
    requires Convex(ring) && !Collinear(ring) && Moves(ring) && s < |ring| && LeastAt(ring, s)
    requires m <= i < |ring| && Out(Neg(Edge(ring, s + m)))
    ensures Out(Neg(Edge(ring, s + i)))
    decreases i
  {
    hide Convex, Collinear, Moves, LeastAt, Out, Edge;
    if m < i {
      StaysBack(ring, s, m, i - 1);
      OnlyLowCorner(ring, s, s + i);
      EdgeMoves(ring, s + i);
    }
  }

  // The first edge from vertex s that does not go out.
  lemma {:induction false} FirstBack(ring: Ring, s: nat, i: nat) returns (m: nat)
    requires ring != [] && !Out(Edge(ring, s + i))
    ensures m <= i && !Out(Edge(ring, s + m)) && forall k: nat :: k < m ==> Goes(ring, s, k, true)
    decreases i
  {
    hide Out, Edge;
    if k: nat :| k < i && !Goes(ring, s, k, true) {
      m := FirstBack(ring, s, k);
    } else {
      m := i;
    }
  }

  lemma ConvexSweeps(ring: Ring)
    requires Convex(ring) && !Collinear(ring) && Moves(ring) && LeastOnce(ring)
    ensures OneSweep(ring) && !Right(ring)
  {
    hide Convex, Collinear, Moves, LeastAt, Out, Edge, Right;
    if |ring| < 3 { ShortOnLine(ring); }
    var n := |ring|;
    var s :| 0 <= s < n && LeastAt(ring, s);
    LeastEdges(ring, s);
    OneWay(Edge(ring, s + n - 1));
    var m := FirstBack(ring, s, n - 1);
    EdgeMoves(ring, s + m);
    forall i: nat | m <= i < n ensures Returns(ring, s, i, true) { StaysBack(ring, s, m, i); }
    assert Sweep(ring, s, m, true);
    LeastTurns(ring, s);
  }

  lemma OneWay(e: Point)
    ensures !(Out(e) && Out(Neg(e)))
  {
  }

  lemma LeastTurns(ring: Ring, s: nat)
    requires |ring| > 1 && s < |ring| && Convex(ring) && !Collinear(ring) && LeastAt(ring, s)
    ensures !Right(ring)
  {
    hide Convex, Collinear, LeastAt, Out, Edge, Cross, Right;
    var n := |ring|;
    LeastEdges(ring, s);
    Periodic(ring, s);
    LowCornerTurns(ring, s + n);
    if Right(ring) { RightAt(ring, s + n - 1); }
  }

  // ---------- clockwise rings ----------

  lemma LeftReversed(ring: Ring)
    requires Left(ring)
    ensures Right(Reversed(ring))
  {
    hide Edge, Reversed;
    var r, n := Reversed(ring), |ring|;
    ReversedLength(ring);
    forall i: nat | i < n ensures Cross(Edge(r, i), Edge(r, i + 1)) <= 0.0 {
      EdgeReversed(ring, i);
      EdgeReversed(ring, i + 1);
      LeftAt(ring, 3 * n - 3 - i);
      assert 3 * n - 3 - i + 1 == 3 * n - 2 - i;
      CrossToward(Edge(ring, 3 * n - 2 - i), Edge(ring, 3 * n - 3 - i), false);
    }
  }

  lemma LeastReversed(ring: Ring)
    requires LeastOnce(ring)
    ensures LeastOnce(Reversed(ring))
  {
    hide Before;
    var r, n := Reversed(ring), |ring|;
    var s :| 0 <= s < n && LeastAt(ring, s);
    assert LeastAt(r, n - 1 - s);
  }

  lemma MovesReversed(ring: Ring)
    requires Moves(ring)
    ensures Moves(Reversed(ring))
  {
    var r := Reversed(ring);
    ReversedTwice(ring);
    hide Reversed;
    forall k | 0 <= k < |r| ensures r[k] != Next(r, k) { var j := BackAt(r, k); }
  }

  lemma SweepsReversed(ring: Ring)
    requires OneSweep(ring)
    ensures OneSweep(Reversed(ring))
  {
    hide Sweep, Reversed;
    var s, m :| 0 <= s < |ring| && 0 < m < |ring| && Sweep(ring, s, m, true);
    ReversedLength(ring);
    SweepReversed(ring, s, m);
  }

  lemma LeftTurns(ring: Ring)
    requires |ring| >= 3
    ensures Left(ring) <==> forall i :: 0 <= i < |ring| ==> Turn(ring, i) >= 0.0
  {
    hide Edge, Turn, Cross;
    if Left(ring) {
      forall i: nat | i < |ring| ensures Turn(ring, i) >= 0.0 { TurnIsCross(ring, i); }
    } else {
      var i: nat :| i < |ring| && Cross(Edge(ring, i), Edge(ring, i + 1)) < 0.0;
      TurnIsCross(ring, i);
    }
  }

  lemma RightTurns(ring: Ring)
    requires |ring| >= 3
    ensures Right(ring) <==> forall i :: 0 <= i < |ring| ==> Turn(ring, i) <= 0.0
  {
    hide Edge, Turn, Cross;
    if Right(ring) {
      forall i: nat | i < |ring| ensures Turn(ring, i) <= 0.0 { TurnIsCross(ring, i); }
    } else {
      var i: nat :| i < |ring| && Cross(Edge(ring, i), Edge(ring, i + 1)) > 0.0;
      TurnIsCross(ring, i);
    }
  }

  lemma OneHanded(ring: Ring)
    requires |ring| >= 3
    ensures TurnsOneWay(ring) <==> Left(ring) != Right(ring)
  {
    hide Left, Right, Turn;
    LeftTurns(ring);
    RightTurns(ring);
  }

  lemma OneHandedReversed(ring: Ring)
    requires |ring| >= 3 && Left(ring) && !Right(ring)
    ensures TurnsOneWay(Reversed(ring))
  {
    hide Left, Right, Turn, Reversed;
    var r := Reversed(ring);
    ReversedLength(ring);
    ReversedTwice(ring);
    LeftReversed(ring);
    if Left(r) { LeftReversed(r); }
    OneHanded(r);
  }

  // ---------- the corner test ----------

  lemma ConvexCorners(ring: Ring)
    requires Convex(ring) && !Collinear(ring) && Moves(ring) && LeastOnce(ring)
    ensures TurnsOneWay(ring) && OneSweep(ring)
    ensures TurnsOneWay(Reversed(ring)) && OneSweep(Reversed(ring))
  {
    hide Convex, Collinear, Moves, LeastOnce, TurnsOneWay, Left, Right, Reversed, OneSweep;
    if |ring| < 3 { ShortOnLine(ring); }
    ConvexIsLeft(ring);
    ConvexSweeps(ring);
    OneHanded(ring);
    OneHandedReversed(ring);
    SweepsReversed(ring);
  }

  lemma SweepsHaveLeast(ring: Ring)
    requires OneSweep(ring)
    ensures LeastOnce(ring)
  {
    hide Sweep, LeastAt;
    var s, m :| 0 <= s < |ring| && 0 < m < |ring| && Sweep(ring, s, m, true);
    SweepLeast(ring, s, m);
  }

  /**
   A ring without repeated neighbours is convex and passes its least vertex once
   if and only if its corners turn one way and it goes out and comes back once.
   */
  lemma CornersDecide(ring: Ring)
    requires Moves(ring) && !Collinear(ring)
    ensures TurnsOneWay(ring) && OneSweep(ring) <==> Convex(Ccw(ring)) && LeastOnce(ring)
  {
    hide Convex, Collinear, Moves, LeastOnce, TurnsOneWay, Reversed, OneSweep, Area2;
    if |ring| < 3 { ShortOnLine(ring); }
    if TurnsOneWay(ring) && OneSweep(ring) {
      OneSweepIsConvex(ring);
      SweepsHaveLeast(ring);
    } else if Convex(Ccw(ring)) && LeastOnce(ring) {
      ReversedTwice(ring);
      CollinearReversed(ring);
      MovesReversed(ring);
      LeastReversed(ring);
      ConvexCorners(Ccw(ring));
    }
  }

  /**
   The ring the program is given, closed or not: unless it lies on one line it is
   convex and passes its least vertex once if and only if the squeezed ring's
   corners turn one way and the squeezed ring goes out and comes back once.
   */
  lemma ConvexExactly(ring: Ring)
    requires !Collinear(ring)
    ensures (var squeezed := Squeezed(ring);
             TurnsOneWay(squeezed) && OneSweep(squeezed) <==> Convex(Ccw(ring)) && LeastOnce(squeezed))
  {
    hide Convex, Collinear, Moves, LeastOnce, TurnsOneWay, OneSweep, Squeezed, Ccw;
    SqueezedAlike(ring);
    SqueezedMoves(ring);
    CornersDecide(Squeezed(ring));
  }

  lemma TurningBends(ring: Ring)
    requires TurnsOneWay(ring)
    ensures !Collinear(ring)
  {
    hide Turn, Collinear;
    var i :| 0 <= i < |ring| && Turn(ring, i) != 0.0;
    if Collinear(ring) { LineTurnsNot(ring, i); }
  }

  lemma LineTurnsNot(ring: Ring, i: nat)
    requires Collinear(ring) && i < |ring|
    ensures Turn(ring, i) == 0.0
  {
    hide Side;
    var n := |ring|;
    var j, k := (i + 1) % n, (i + 2) % n;
    CornerSide(ring[i], ring[j], ring[k]);
    assert Side(ring[k], ring[i], ring[j]) == 0.0;
  }

  lemma CornerSide(a: Point, b: Point, c: Point)
    ensures (b.x - a.x) * (c.y - b.y) - (b.y - a.y) * (c.x - b.x) == Side(c, a, b)
  {
  }

  // ---------- rings that meet no vertex twice ----------

  lemma {:induction false} FirstOf(ring: Ring, n: nat) returns (s: nat)
    requires 0 < n <= |ring| && AllDiffer(ring)
    ensures s < n && forall i :: 0 <= i < n && i != s ==> Before(ring[s], ring[i])
    decreases n
  {
    hide Before;
    if n == 1 {
      s := 0;
    } else {
      s := FirstOf(ring, n - 1);
      Compare(ring[s], ring[n - 1]);
      if Before(ring[n - 1], ring[s]) {
        forall i | 0 <= i < n - 1 ensures Before(ring[n - 1], ring[i]) {
          if i != s { BeforeTransitive(ring[n - 1], ring[s], ring[i]); }
        }
        s := n - 1;
      }
    }
  }

  lemma DistinctLeast(ring: Ring)
    requires ring != [] && AllDiffer(ring)
    ensures LeastOnce(ring)
  {
    hide Before;
    var s := FirstOf(ring, |ring|);
    assert LeastAt(ring, s);
  }

  /** For a ring that passes the corner test and meets no vertex twice: convex if and only if it sweeps once. */
  lemma OpenRingConvex(ring: Ring)
    requires TurnsOneWay(ring) && AllDiffer(ring)
    ensures Convex(Ccw(ring)) <==> OneSweep(ring)
  {
    hide Convex, Collinear, LeastOnce, OneSweep, TurnsOneWay, Squeezed, Ccw;
    TurningBends(ring);
    if |ring| < 3 { ShortOnLine(ring); }
    ConvexExactly(ring);
    SqueezedDistinct(ring);
    DistinctLeast(ring);
  }

  /**
   For a closed ring that passes the corner test and otherwise meets no vertex
   twice: convex if and only if the corner at the closing vertex also turns that
   way and the ring sweeps once.
   */
  lemma ClosedRingConvex(open: Ring)
    requires open != [] && AllDiffer(open) && TurnsOneWay(open + [open[0]])
    ensures Convex(Ccw(open + [open[0]])) <==> TurnsOneWay(open) && OneSweep(open)
  {
    hide Convex, LeastOnce, OneSweep, TurnsOneWay, Squeezed, Ccw;
    var ring := open + [open[0]];
    TurningBends(ring);
    if |ring| < 3 { ShortOnLine(ring); }
    ConvexExactly(ring);
    SqueezedDistinct(open);
    DistinctLeast(open);
  }

  // A dart whose inner corner is where the ring closes.
  const DART: Ring := [Point(1.0, 1.0), Point(0.0, 3.0), Point(0.0, 0.0), Point(3.0, 0.0), Point(1.0, 1.0)]

  lemma DartTurns()
    ensures TurnsOneWay(DART)
  {
    var r := DART;
    assert Turn(r, 0) == 3.0 && Turn(r, 1) == 9.0 && Turn(r, 2) == 3.0 && Turn(r, 3) == 0.0 && Turn(r, 4) == 0.0;
  }

  lemma DartArea()
    ensures Area2(DART) == 6.0
  {
    hide Area2, Cross;
    FivePointArea(DART);
    DartCrosses();
  }

  lemma DartCrosses()
    ensures (var r := DART;
             Cross(r[0], r[1]) + Cross(r[1], r[2]) + Cross(r[2], r[3]) + Cross(r[3], r[4]) + Cross(r[4], r[0]) == 6.0)
  {
    hide Cross;
    CrossOf(1.0, 1.0, 0.0, 3.0);
    CrossOf(0.0, 3.0, 0.0, 0.0);
    CrossOf(0.0, 0.0, 3.0, 0.0);
    CrossOf(3.0, 0.0, 1.0, 1.0);
    CrossOf(1.0, 1.0, 1.0, 1.0);
  }

  lemma CrossOf(px: real, py: real, qx: real, qy: real)
    ensures Cross(Point(px, py), Point(qx, qy)) == px * qy - qx * py
  {
  }

  lemma DartSide()
    ensures (var r := DART; |r| == 5 && Side(r[3], r[0], Next(r, 0)) == -3.0)
  {
    assert Next(DART, 0) == DART[1];
  }

  /** The corner test accepts a simple closed ring that is not convex: it never sees the corner where the ring closes. */
  lemma DartPasses()
    ensures TurnsOneWay(DART) && !Convex(Ccw(DART))
  {
    hide *;
    DartTurns();
    DartArea();
    AlreadyCcw(DART);
    DartSide();
    NotConvex(DART, 0, 3);
  }
}
