/**
 When the corner test for a convex parcel is right: corners that all turn one way
 do not make a ring convex, as a pentagram shows, but they do when the ring also
 goes out once and comes back once.

 Along each of the two chains the edges' directions stay within a half turn, so
 they turn monotonically; the height of the ring over the line of one of its edges
 then rises and falls once, and is nowhere below it.
 */
module ConvexRing {
  import opened PolygonClip
  import opened ClipArea
  import opened ClipHull
  import opened ClipRegion
  import opened OverlapBox

  // The ring's vertices again and again.
  function At(ring: Ring, i: nat): Point
    requires ring != []
    decreases i
  {
    if i < |ring| then ring[i] else At(ring, i - |ring|)
  }

  function Edge(ring: Ring, i: nat): Point
    requires ring != []
  {
    Point(At(ring, i + 1).x - At(ring, i).x, At(ring, i + 1).y - At(ring, i).y)
  }

  function Neg(e: Point): Point { Point(-e.x, -e.y) }

  // Of the two opposite directions of every line, the one that goes out.
  predicate Out(e: Point) { e.x > 0.0 || (e.x == 0.0 && e.y > 0.0) }

  function Toward(e: Point, out: bool): Point { if out then e else Neg(e) }

  // From vertex s on, m edges go out and the others come back (or, if not `out`, the other way round).
  ghost predicate Sweep(ring: Ring, s: nat, m: nat, out: bool) {
    && 0 < m < |ring|
    && (forall i: nat :: i < m ==> Goes(ring, s, i, out))
    && (forall i: nat :: m <= i < |ring| ==> Returns(ring, s, i, out))
  }

  predicate Goes(ring: Ring, s: nat, i: nat, out: bool)
    requires ring != []
  {
    Out(Toward(Edge(ring, s + i), out))
  }

  predicate Returns(ring: Ring, s: nat, i: nat, out: bool)
    requires ring != []
  {
    Out(Toward(Edge(ring, s + i), !out))
  }

  ghost predicate Left(ring: Ring) {
    ring != [] && forall i: nat :: i < |ring| ==> Cross(Edge(ring, i), Edge(ring, i + 1)) >= 0.0
  }

  // ---------- directions within a half turn ----------

  lemma CrossIdentity(u: Point, v: Point, w: Point)
    ensures Cross(u, w) * v.x == Cross(u, v) * w.x + Cross(v, w) * u.x
    ensures Cross(u, w) * v.y == Cross(u, v) * w.y + Cross(v, w) * u.y
  {
    assert (u.x * w.y - w.x * u.y) * v.x == u.x * w.y * v.x - w.x * u.y * v.x;
    assert (u.x * v.y - v.x * u.y) * w.x == u.x * v.y * w.x - v.x * u.y * w.x;
    assert (v.x * w.y - w.x * v.y) * u.x == v.x * w.y * u.x - w.x * v.y * u.x;
    assert (u.x * w.y - w.x * u.y) * v.y == u.x * w.y * v.y - w.x * u.y * v.y;
    assert (u.x * v.y - v.x * u.y) * w.y == u.x * v.y * w.y - v.x * u.y * w.y;
    assert (v.x * w.y - w.x * v.y) * u.y == v.x * w.y * u.y - w.x * v.y * u.y;
  }

  lemma OutTransitive(u: Point, v: Point, w: Point)
    requires Out(u) && Out(v) && Out(w) && Cross(u, v) >= 0.0 && Cross(v, w) >= 0.0
    ensures Cross(u, w) >= 0.0
  {
    CrossIdentity(u, v, w);
    Combine(Cross(u, w), Cross(u, v), Cross(v, w), u, v, w);
  }

  lemma Combine(c: real, a: real, b: real, u: Point, v: Point, w: Point)
    requires Out(u) && Out(v) && Out(w) && a >= 0.0 && b >= 0.0
    requires c * v.x == a * w.x + b * u.x && c * v.y == a * w.y + b * u.y
    ensures c >= 0.0
  {
    NonNegative(a, w.x);
    NonNegative(b, u.x);
    if v.x > 0.0 {
      if c < 0.0 { Positive(-c, v.x); }
    } else {
      ZeroOrAhead(a, w);
      ZeroOrAhead(b, u);
      if c < 0.0 { Positive(-c, v.y); }
    }
  }

  lemma ZeroOrAhead(a: real, w: Point)
    requires Out(w) && a >= 0.0 && a * w.x == 0.0
    ensures a * w.y >= 0.0
  {
    if w.x > 0.0 {
      if a > 0.0 { Positive(a, w.x); }
    } else {
      NonNegative(a, w.y);
    }
  }

  lemma Positive(x: real, y: real)
    requires x > 0.0 && y > 0.0
    ensures x * y > 0.0
  {
  }

  lemma CrossToward(u: Point, v: Point, out: bool)
    ensures Cross(Toward(u, out), Toward(v, out)) == Cross(u, v)
    ensures Cross(Toward(u, out), Toward(v, !out)) == -Cross(u, v)
    ensures Cross(u, v) == -Cross(v, u)
  {
  }

  // ---------- heights over an edge ----------

  // How far vertex j lies to the left of edge k.
  function Height(ring: Ring, k: nat, j: nat): real
    requires ring != []
  {
    Side(At(ring, j), At(ring, k), At(ring, k + 1))
  }

  lemma HeightStep(ring: Ring, k: nat, j: nat)
    requires ring != []
    ensures Height(ring, k, j + 1) == Height(ring, k, j) + Cross(Edge(ring, k), Edge(ring, j))
    ensures Height(ring, k, k) == 0.0
  {
    var e, p, q, a := Edge(ring, k), At(ring, j), At(ring, j + 1), At(ring, k);
    assert e.x * (q.y - a.y) - e.x * (p.y - a.y) == e.x * (q.y - p.y);
    assert e.y * (q.x - a.x) - e.y * (p.x - a.x) == e.y * (q.x - p.x);
  }

  lemma Periodic(ring: Ring, i: nat)
    requires ring != []
    ensures At(ring, i + |ring|) == At(ring, i) && Edge(ring, i + |ring|) == Edge(ring, i)
  {
    assert At(ring, i + 1 + |ring|) == At(ring, i + 1);
  }

  lemma {:induction false} LeftAt(ring: Ring, i: nat)
    requires Left(ring)
    ensures Cross(Edge(ring, i), Edge(ring, i + 1)) >= 0.0
    decreases i
  {
    if i >= |ring| {
      LeftAt(ring, i - |ring|);
      Periodic(ring, i - |ring|);
      Periodic(ring, i + 1 - |ring|);
    }
  }

  lemma SweepAt(ring: Ring, s: nat, m: nat, out: bool, i: nat)
    requires m < |ring| && Sweep(ring, s, m, out) && i < |ring|
    ensures Out(Toward(Edge(ring, s + i), if i < m then out else !out))
  {
    if i < m { assert Goes(ring, s, i, out); } else { assert Returns(ring, s, i, out); }
  }

  // Within a chain every later edge turns left of an earlier one.
  lemma {:induction false} ChainTurns(ring: Ring, s: nat, m: nat, out: bool, a: nat, b: nat)
    requires Left(ring) && 0 < m < |ring| && Sweep(ring, s, m, out) && a <= b < m
    ensures Cross(Edge(ring, s + a), Edge(ring, s + b)) >= 0.0
    decreases b
  {
    hide Left, Sweep, Edge, Out;
    if a < b {
      var u, v, w := Edge(ring, s + a), Edge(ring, s + b - 1), Edge(ring, s + b);
      ChainTurns(ring, s, m, out, a, b - 1);
      LeftAt(ring, s + b - 1);
      SweepAt(ring, s, m, out, a);
      SweepAt(ring, s, m, out, b - 1);
      SweepAt(ring, s, m, out, b);
      CrossToward(u, v, out);
      CrossToward(v, w, out);
      CrossToward(u, w, out);
      OutTransitive(Toward(u, out), Toward(v, out), Toward(w, out));
    }
  }

  lemma {:induction false} Rises(ring: Ring, s: nat, m: nat, out: bool, a: nat, i: nat)
    requires Left(ring) && 0 < m < |ring| && Sweep(ring, s, m, out) && a < m && a <= i <= m
    ensures Height(ring, s + a, s + i) >= 0.0
    decreases i
  {
    hide Left, Sweep, Edge, Height;
    if a == i {
      HeightStep(ring, s + a, s + a);
    } else {
      Rises(ring, s, m, out, a, i - 1);
      HeightStep(ring, s + a, s + i - 1);
      ChainTurns(ring, s, m, out, a, i - 1);
    }
  }

  // Back on the first chain, before the edge, the height falls to zero.
  lemma {:induction false} FallsToEdge(ring: Ring, s: nat, m: nat, out: bool, a: nat, b: nat)
    requires Left(ring) && 0 < m < |ring| && Sweep(ring, s, m, out) && b <= a < m
    ensures Height(ring, s + a, s + |ring| + b) >= 0.0
    decreases a - b
  {
    hide Left, Sweep, Edge, Out;
    if a == b {
      Periodic(ring, s + a);
      HeightStep(ring, s + a, s + a);
      assert s + |ring| + b == s + a + |ring|;
    } else {
      FallsToEdge(ring, s, m, out, a, b + 1);
      HeightStep(ring, s + a, s + |ring| + b);
      Periodic(ring, s + b);
      assert s + |ring| + b == s + b + |ring|;
      ChainTurns(ring, s, m, out, b, a);
      CrossToward(Edge(ring, s + b), Edge(ring, s + a), true);
    }
  }

  // On the second chain, once the ring turns down towards the edge it keeps coming down.
  lemma {:induction false} KeepsFalling(ring: Ring, s: nat, m: nat, out: bool, a: nat, i: nat, j: nat)
    requires Left(ring) && 0 < m < |ring| && Sweep(ring, s, m, out) && a < m <= i <= j < |ring|
    requires Cross(Edge(ring, s + a), Edge(ring, s + i)) <= 0.0
    ensures Cross(Edge(ring, s + a), Edge(ring, s + j)) <= 0.0
    decreases j
  {
    hide Left, Sweep, Edge, Out;
    if i < j {
      var e, v, w := Edge(ring, s + a), Edge(ring, s + j - 1), Edge(ring, s + j);
      KeepsFalling(ring, s, m, out, a, i, j - 1);
      LeftAt(ring, s + j - 1);
      SweepAt(ring, s, m, out, a);
      SweepAt(ring, s, m, out, j - 1);
      SweepAt(ring, s, m, out, j);
      CrossToward(e, v, out);
      CrossToward(v, w, !out);
      CrossToward(e, w, out);
      BackTransitive(e, v, w, out);
    }
  }

  lemma BackTransitive(e: Point, v: Point, w: Point, out: bool)
    requires Out(Toward(e, out)) && Out(Toward(v, !out)) && Out(Toward(w, !out))
    requires Cross(e, v) <= 0.0 && Cross(v, w) >= 0.0
    ensures Cross(e, w) <= 0.0
  {
    hide Out;
    var f := Toward(e, out);
    assert Neg(Neg(e)) == e;
    CrossToward(e, v, out);
    CrossToward(v, w, !out);
    CrossToward(e, w, out);
    OutTransitive(f, Toward(v, !out), Toward(w, !out));
  }

  lemma {:induction false} FallsFrom(ring: Ring, s: nat, m: nat, out: bool, a: nat, i: nat, j: nat)
    requires Left(ring) && 0 < m < |ring| && Sweep(ring, s, m, out) && a < m <= i <= j <= |ring|
    requires i < |ring| && Cross(Edge(ring, s + a), Edge(ring, s + i)) <= 0.0
    ensures Height(ring, s + a, s + i) >= Height(ring, s + a, s + j)
    decreases j
  {
    hide Left, Sweep, Edge, Height;
    if i < j {
      FallsFrom(ring, s, m, out, a, i, j - 1);
      KeepsFalling(ring, s, m, out, a, i, j - 1);
      HeightStep(ring, s + a, s + j - 1);
    }
  }

  lemma {:induction false} ComesBack(ring: Ring, s: nat, m: nat, out: bool, a: nat, i: nat)
    requires Left(ring) && 0 < m < |ring| && Sweep(ring, s, m, out) && a < m <= i <= |ring|
    ensures Height(ring, s + a, s + i) >= 0.0
    decreases i
  {
    hide Left, Sweep, Edge, Height;
    FallsToEdge(ring, s, m, out, a, 0);
    if i == m {
      Rises(ring, s, m, out, a, m);
    } else if i < |ring| {
      if Cross(Edge(ring, s + a), Edge(ring, s + i - 1)) > 0.0 {
        ComesBack(ring, s, m, out, a, i - 1);
        HeightStep(ring, s + a, s + i - 1);
      } else {
        KeepsFalling(ring, s, m, out, a, i - 1, i);
        FallsFrom(ring, s, m, out, a, i, |ring|);
      }
    }
  }

  lemma NowhereBelow(ring: Ring, s: nat, m: nat, out: bool, a: nat, i: nat)
    requires Left(ring) && 0 < m < |ring| && Sweep(ring, s, m, out) && a < m && a <= i <= a + |ring|
    ensures Height(ring, s + a, s + i) >= 0.0
  {
    hide Left, Sweep, Edge, Height;
    if i <= m {
      Rises(ring, s, m, out, a, i);
    } else if i <= |ring| {
      ComesBack(ring, s, m, out, a, i);
    } else {
      FallsToEdge(ring, s, m, out, a, i - |ring|);
    }
  }

  // ---------- the whole ring ----------

  lemma OtherChain(ring: Ring, s: nat, m: nat, out: bool)
    requires 0 < m < |ring| && Sweep(ring, s, m, out)
    ensures Sweep(ring, s + m, |ring| - m, !out)
  {
    hide Edge, Out;
    var n := |ring|;
    var s2, back := s + m, !out;
    forall i: nat | i < n - m ensures Goes(ring, s2, i, back) {
      SweepAt(ring, s, m, out, m + i);
      assert s + (m + i) == s + m + i;
    }
    forall i: nat | n - m <= i < n ensures Returns(ring, s2, i, back) {
      SweepAt(ring, s, m, out, m + i - n);
      Periodic(ring, s + (m + i - n));
      assert s + (m + i - n) + n == s + m + i;
    }
  }

  // Edge k, counted from vertex s on, has every vertex on its left.
  lemma EdgeBelow(ring: Ring, s: nat, m: nat, t: nat, i: nat)
    requires Left(ring) && 0 < m < |ring| && Sweep(ring, s, m, true)
    requires s <= t < s + |ring| && t <= i <= t + |ring|
    ensures Height(ring, t, i) >= 0.0
  {
    hide Left, Sweep, Height;
    if t < s + m {
      NowhereBelow(ring, s, m, true, t - s, i - s);
    } else {
      OtherChain(ring, s, m, true);
      NowhereBelow(ring, s + m, |ring| - m, false, t - (s + m), i - (s + m));
    }
  }

  lemma AtTurns(ring: Ring, k: nat)
    requires k < |ring|
    ensures At(ring, k) == ring[k] && At(ring, k + 1) == Next(ring, k)
    ensures At(ring, k + |ring|) == ring[k] && At(ring, k + |ring| + 1) == Next(ring, k)
    ensures At(ring, k + 2 * |ring|) == ring[k]
  {
    Periodic(ring, k);
    Periodic(ring, k + 1);
    Periodic(ring, k + |ring|);
    assert k + |ring| + |ring| == k + 2 * |ring| && k + 1 + |ring| == k + |ring| + 1;
  }

  lemma SweepIsConvex(ring: Ring, s: nat, m: nat)
    requires Left(ring) && s < |ring| && 0 < m < |ring| && Sweep(ring, s, m, true)
    ensures Convex(ring)
  {
    hide Left, Sweep, Side;
    forall k, j | 0 <= k < |ring| && 0 <= j < |ring| ensures Inside(ring[j], ring[k], Next(ring, k)) {
      EdgeHolds(ring, s, m, k, j);
    }
  }

  lemma EdgeHolds(ring: Ring, s: nat, m: nat, k: nat, j: nat)
    requires Left(ring) && s < |ring| && 0 < m < |ring| && Sweep(ring, s, m, true)
    requires k < |ring| && j < |ring|
    ensures Inside(ring[j], ring[k], Next(ring, k))
  {
    hide Left, Sweep, Side, At, Next;
    var n := |ring|;
    AtTurns(ring, k);
    AtTurns(ring, j);
    var t := if k >= s then k else k + n;
    var i := if j >= t then j else if j + n >= t then j + n else j + 2 * n;
    EdgeBelow(ring, s, m, t, i);
  }

  // ---------- clockwise rings ----------

  lemma {:induction false} AtReversed(ring: Ring, i: nat)
    requires ring != [] && i < 3 * |ring|
    ensures At(Reversed(ring), i) == At(ring, 3 * |ring| - 1 - i)
    decreases i
  {
    var n := |ring|;
    if i < n {
      AtTurns(ring, n - 1 - i);
      assert n - 1 - i + 2 * n == 3 * n - 1 - i;
    } else {
      AtReversed(ring, i - n);
      Periodic(ring, 3 * n - 1 - i);
      assert 3 * n - 1 - i + n == 3 * n - 1 - (i - n);
    }
  }

  lemma EdgeReversed(ring: Ring, i: nat)
    requires ring != [] && i + 1 < 3 * |ring|
    ensures Edge(Reversed(ring), i) == Neg(Edge(ring, 3 * |ring| - 2 - i))
  {
    AtReversed(ring, i);
    AtReversed(ring, i + 1);
  }

  ghost predicate Right(ring: Ring) {
    ring != [] && forall i: nat :: i < |ring| ==> Cross(Edge(ring, i), Edge(ring, i + 1)) <= 0.0
  }

  lemma {:induction false} RightAt(ring: Ring, i: nat)
    requires Right(ring)
    ensures Cross(Edge(ring, i), Edge(ring, i + 1)) <= 0.0
    decreases i
  {
    if i >= |ring| {
      RightAt(ring, i - |ring|);
      Periodic(ring, i - |ring|);
      Periodic(ring, i + 1 - |ring|);
    }
  }

  lemma RightReversed(ring: Ring)
    requires Right(ring)
    ensures Left(Reversed(ring))
  {
    hide Edge, Reversed;
    var r, n := Reversed(ring), |ring|;
    ReversedLength(ring);
    forall i: nat | i < n ensures Cross(Edge(r, i), Edge(r, i + 1)) >= 0.0 {
      EdgeReversed(ring, i);
      EdgeReversed(ring, i + 1);
      RightAt(ring, 3 * n - 3 - i);
      assert 3 * n - 3 - i + 1 == 3 * n - 2 - i;
      CrossToward(Edge(ring, 3 * n - 2 - i), Edge(ring, 3 * n - 3 - i), false);
    }
  }

  lemma ReversedLength(ring: Ring)
    ensures |Reversed(ring)| == |ring|
  {
  }

  lemma SweepReversed(ring: Ring, s: nat, m: nat)
    requires s < |ring| && 0 < m < |ring| && Sweep(ring, s, m, true)
    ensures Sweep(Reversed(ring), |ring| - 1 - s, |ring| - m, true)
  {
    hide Edge, Out, Reversed;
    var r, n, s' := Reversed(ring), |ring|, |ring| - 1 - s;
    ReversedLength(ring);
    forall i: nat | i < n - m ensures Goes(r, s', i, true) {
      EdgeBackwards(ring, s, m, i);
    }
    forall i: nat | n - m <= i < n ensures Returns(r, s', i, true) {
      EdgeBackwards(ring, s, m, i);
    }
  }

  lemma EdgeBackwards(ring: Ring, s: nat, m: nat, i: nat)
    requires s < |ring| && 0 < m < |ring| && Sweep(ring, s, m, true) && i < |ring|
    ensures Out(Toward(Edge(Reversed(ring), |ring| - 1 - s + i), i < |ring| - m))
  {
    hide Edge, Out, Reversed;
    var n := |ring|;
    EdgeReversed(ring, n - 1 - s + i);
    SweepAt(ring, s, m, true, n - 1 - i);
    Periodic(ring, s + (n - 1 - i));
    assert s + (n - 1 - i) + n == 3 * n - 2 - (n - 1 - s + i);
    assert Neg(Neg(Edge(ring, s + (n - 1 - i)))) == Edge(ring, s + (n - 1 - i));
  }

  // ---------- the corner test ----------

  lemma TurnIsCross(ring: Ring, i: nat)
    requires |ring| >= 3 && i < |ring|
    ensures Turn(ring, i) == Cross(Edge(ring, i), Edge(ring, i + 1))
  {
    var n := |ring|;
    AtModulus(ring, i);
    AtModulus(ring, i + 1);
    AtModulus(ring, i + 2);
    hide At;
    CornerCross(At(ring, i), At(ring, i + 1), At(ring, i + 2));
  }

  lemma AtModulus(ring: Ring, i: nat)
    requires ring != [] && i < 2 * |ring|
    ensures At(ring, i) == ring[i % |ring|]
  {
    if i < |ring| { SmallModulus(i, |ring|); } else { SmallModulus(i - |ring|, |ring|); }
  }

  lemma CornerCross(a: Point, b: Point, c: Point)
    ensures Cross(Point(b.x - a.x, b.y - a.y), Point(c.x - b.x, c.y - b.y)) == (b.x - a.x) * (c.y - b.y) - (b.y - a.y) * (c.x - b.x)
  {
  }

  // The ring goes out once and comes back once.
  ghost predicate OneSweep(ring: Ring) {
    exists s, m :: 0 <= s < |ring| && 0 < m < |ring| && Sweep(ring, s, m, true)
  }

  /**
   A ring whose corners all turn one way and that sweeps out and back once is
   convex: every vertex lies inside every edge of the counter-clockwise ring.
   */
  lemma OneSweepIsConvex(ring: Ring)
    requires |ring| >= 3 && TurnsOneWay(ring) && OneSweep(ring)
    ensures Convex(Ccw(ring))
  {
    hide Sweep, Edge, Turn, Side, Area2, Reversed;
    var s, m :| 0 <= s < |ring| && 0 < m < |ring| && Sweep(ring, s, m, true);
    forall i: nat | i < |ring| ensures Turn(ring, i) == Cross(Edge(ring, i), Edge(ring, i + 1)) {
      TurnIsCross(ring, i);
    }
    ReversedLength(ring);
    ReversedArea(ring);
    if Left(ring) {
      SweepIsConvex(ring, s, m);
      ConvexArea(ring);
    } else {
      assert Right(ring);
      RightReversed(ring);
      SweepReversed(ring, s, m);
      SweepIsConvex(Reversed(ring), |ring| - 1 - s, |ring| - m);
      ConvexArea(Reversed(ring));
      if Area2(ring) == 0.0 { FlatConvex(ring); }
    }
  }

  lemma ConvexArea(ring: Ring)
    requires ring != [] && Convex(ring)
    ensures Area2(ring) >= 0.0
  {
    hide Convex;
    ConvexVertex(ring, ring[0]);
    InsideAllArea(ring, ring[0]);
  }

  // Without area the direction round the ring makes no difference.
  lemma FlatConvex(ring: Ring)
    requires ring != [] && Convex(Reversed(ring)) && Area2(Reversed(ring)) == 0.0
    ensures Convex(ring)
  {
    hide Side, Convex;
    var r, n := Reversed(ring), |ring|;
    forall k, q | 0 <= k < n && q in ring ensures Inside(q, ring[k], Next(ring, k)) {
      ReversedPoint(ring, q);
      ConvexVertex(r, q);
      InsideAllArea(r, q);
      var j := BackAt(ring, k);
      SideIsFrom(q, r[j], Next(r, j));
      SideBackwards(q, ring[k], Next(ring, k));
    }
    AllHold(ring);
  }

  lemma AllHold(ring: Ring)
    requires forall k, q :: 0 <= k < |ring| && q in ring ==> Inside(q, ring[k], Next(ring, k))
    ensures Convex(ring)
  {
  }

  lemma ConvexVertex(ring: Ring, q: Point)
    requires Convex(ring) && q in ring
    ensures InsideAll(q, ring)
  {
    forall k | 0 <= k < |ring| ensures Inside(q, ring[k], Next(ring, k)) {
      assert AllInside(ring, ring[k], Next(ring, k));
    }
  }

  lemma ReversedPoint(ring: Ring, p: Point)
    requires p in ring
    ensures p in Reversed(ring)
  {
    var i :| 0 <= i < |ring| && ring[i] == p;
    assert Reversed(ring)[|ring| - 1 - i] == p;
  }

  // Which edge of the reversed ring is edge k backwards.
  lemma BackAt(ring: Ring, k: nat) returns (j: nat)
    requires k < |ring|
    ensures (var r := Reversed(ring);
             j < |r| == |ring| && r[j] == Next(ring, k) && Next(r, j) == ring[k])
  {
    j := if k + 1 == |ring| then k else |ring| - 2 - k;
  }

  // Five points of a pentagon, joined two apart.
  const PENTAGRAM: Ring := [Point(2.0, 0.0), Point(-1.0, 2.0), Point(0.0, -2.0), Point(1.0, 2.0), Point(-2.0, 0.0)]

  lemma PentagramTurns()
    ensures TurnsOneWay(PENTAGRAM)
  {
    var r := PENTAGRAM;
    assert Turn(r, 0) == 10.0 && Turn(r, 1) == 8.0 && Turn(r, 2) == 10.0 && Turn(r, 3) == 8.0 && Turn(r, 4) == 8.0;
  }

  lemma FivePointArea(r: Ring)
    requires |r| == 5
    ensures Area2(r) == Cross(r[0], r[1]) + Cross(r[1], r[2]) + Cross(r[2], r[3]) + Cross(r[3], r[4]) + Cross(r[4], r[0])
  {
    hide Cross;
    assert CrossUpTo(r, 1) == CrossUpTo(r, 0) + Cross(r[0], r[1]);
    assert CrossUpTo(r, 2) == CrossUpTo(r, 1) + Cross(r[1], r[2]);
    assert CrossUpTo(r, 3) == CrossUpTo(r, 2) + Cross(r[2], r[3]);
    assert CrossUpTo(r, 4) == CrossUpTo(r, 3) + Cross(r[3], r[4]);
    assert CrossUpTo(r, 5) == CrossUpTo(r, 4) + Cross(r[4], r[0]);
  }

  /** The corner test alone accepts a ring that is not convex. */
  lemma PentagramPasses()
    ensures TurnsOneWay(PENTAGRAM) && !Convex(Ccw(PENTAGRAM))
  {
    hide *;
    PentagramTurns();
    PentagramArea();
    AlreadyCcw(PENTAGRAM);
    PentagramSide();
    NotConvex(PENTAGRAM, 0, 3);
  }

  lemma PentagramArea()
    ensures Area2(PENTAGRAM) == 12.0
  {
    hide Area2, Cross;
    FivePointArea(PENTAGRAM);
    PentagramCrosses();
  }

  lemma AlreadyCcw(ring: Ring)
    requires Area2(ring) >= 0.0
    ensures Ccw(ring) == ring
  {
  }

  lemma PentagramSide()
    ensures (var r := PENTAGRAM; |r| == 5 && Side(r[3], r[0], Next(r, 0)) == -4.0)
  {
    assert Next(PENTAGRAM, 0) == PENTAGRAM[1];
  }

  lemma PentagramCrosses()
    ensures (var r := PENTAGRAM;
             Cross(r[0], r[1]) + Cross(r[1], r[2]) + Cross(r[2], r[3]) + Cross(r[3], r[4]) + Cross(r[4], r[0]) == 12.0)
  {
  }

  lemma NotConvex(ring: Ring, k: nat, j: nat)
    requires k < |ring| && j < |ring| && Side(ring[j], ring[k], Next(ring, k)) < 0.0
    ensures !Convex(ring)
  {
    assert ring[j] in ring;
    assert !AllInside(ring, ring[k], Next(ring, k));
  }
}
