/**
 A ring without the vertices it repeats at once. A closed parcel ring ends on the
 vertex it starts from, so the corner test never sees the corner there; the
 squeezed ring has that corner. Squeezing keeps the ring's points, its area and
 whether it is convex.
 */
module SqueezedRing {
  import opened PolygonClip
  import opened ClipHull
  import opened ClipRegion
  import opened ConvexRing

  // The first n steps along the ring, without those that stay where they are.
  function Walk(ring: Ring, n: nat): (path: Ring)
    requires ring != [] && n <= |ring|
    ensures path != [] && path[0] == ring[0] && path[|path| - 1] == if n == |ring| then ring[0] else ring[n]
  {
    if n == 0 then [ring[0]]
    else
      var path, p := Walk(ring, n - 1), Next(ring, n - 1);
      if p == path[|path| - 1] then path else path + [p]
  }

  // Each vertex that the ring repeats at once, round the end too, is written once.
  function Squeezed(ring: Ring): Ring {
    if ring == [] then [] else var path := Walk(ring, |ring|); path[..|path| - 1]
  }

  // ---------- the same steps ----------

  ghost predicate HasStep(ring: Ring, n: nat, a: Point, b: Point)
    requires n <= |ring|
  {
    exists k :: 0 <= k < n && ring[k] == a && Next(ring, k) == b
  }

  ghost predicate PathStep(path: Ring, a: Point, b: Point) {
    exists j, l :: 0 <= j && l == j + 1 && l < |path| && path[j] == a && path[l] == b
  }

  lemma PathGrows(path: Ring, p: Point, a: Point, b: Point)
    requires path != []
    ensures PathStep(path + [p], a, b) <==> PathStep(path, a, b) || (a == path[|path| - 1] && b == p)
  {
    var longer := path + [p];
    if PathStep(path, a, b) {
      var j, l :| 0 <= j && l == j + 1 && l < |path| && path[j] == a && path[l] == b;
      assert longer[j] == a && longer[l] == b;
    }
    if a == path[|path| - 1] && b == p {
      assert longer[|path| - 1] == a && longer[|path|] == b;
    }
  }

  lemma StepsGrow(ring: Ring, n: nat, a: Point, b: Point)
    requires 0 < n <= |ring|
    ensures HasStep(ring, n, a, b) <==> HasStep(ring, n - 1, a, b) || (a == ring[n - 1] && b == Next(ring, n - 1))
  {
  }

  lemma NoStepsYet(ring: Ring, a: Point, b: Point)
    ensures !HasStep(ring, 0, a, b) && (ring != [] ==> !PathStep([ring[0]], a, b))
  {
  }

  lemma {:induction false} WalkSteps(ring: Ring, n: nat, a: Point, b: Point)
    requires ring != [] && n <= |ring| && a != b
    ensures PathStep(Walk(ring, n), a, b) <==> HasStep(ring, n, a, b)
    decreases n
  {
    hide HasStep, PathStep;
    if n == 0 {
      NoStepsYet(ring, a, b);
    } else {
      WalkSteps(ring, n - 1, a, b);
      StepsGrow(ring, n, a, b);
      PathGrows(Walk(ring, n - 1), Next(ring, n - 1), a, b);
    }
  }

  lemma ClosedSteps(path: Ring, a: Point, b: Point)
    requires |path| > 1 && path[0] == path[|path| - 1]
    ensures (var ring := path[..|path| - 1]; HasStep(ring, |ring|, a, b) <==> PathStep(path, a, b))
  {
    var ring := path[..|path| - 1];
    forall k | 0 <= k < |ring| ensures ring[k] == path[k] && Next(ring, k) == path[k + 1] {
    }
    if PathStep(path, a, b) {
      var j, l :| 0 <= j && l == j + 1 && l < |path| && path[j] == a && path[l] == b;
      assert ring[j] == a && Next(ring, j) == b;
    }
  }

  // Where the walk has been.
  lemma {:induction false} WalkPoints(ring: Ring, n: nat, p: Point)
    requires ring != [] && n <= |ring|
    ensures p in Walk(ring, n) <==> p in ring[..n] || p == if n == |ring| then ring[0] else ring[n]
    decreases n
  {
    if n > 0 {
      WalkPoints(ring, n - 1, p);
      assert ring[..n] == ring[..n - 1] + [ring[n - 1]];
    }
  }

  // The two rings have the same points, and their edges between different points are the same.
  ghost predicate SameEdges(ring: Ring, other: Ring) {
    && (forall p :: p in ring <==> p in other)
    && (forall a, b :: a != b ==> (HasStep(ring, |ring|, a, b) <==> HasStep(other, |other|, a, b)))
  }

  lemma OnePointOnLine(ring: Ring, o: Point)
    requires forall p <- ring :: p == o
    ensures Collinear(ring)
  {
    forall i, j, k | 0 <= i < |ring| && 0 <= j < |ring| && 0 <= k < |ring| ensures Side(ring[k], ring[i], ring[j]) == 0.0 {
      assert ring[i] in ring && ring[j] in ring && ring[k] in ring;
    }
  }

  lemma ShortOnLine(ring: Ring)
    requires |ring| < 3
    ensures Collinear(ring)
  {
    forall i, j, k | 0 <= i < |ring| && 0 <= j < |ring| && 0 <= k < |ring| ensures Side(ring[k], ring[i], ring[j]) == 0.0 {
      OfTwo(ring[k], ring[i], ring[j]);
    }
  }

  lemma OfTwo(p: Point, a: Point, b: Point)
    requires p == a || p == b || a == b
    ensures Side(p, a, b) == 0.0
  {
  }

  lemma WalkMoves(ring: Ring)
    requires !Collinear(ring)
    ensures ring != [] && |Walk(ring, |ring|)| > 1
  {
    hide Collinear;
    if |ring| < 3 { ShortOnLine(ring); }
    if forall p <- ring :: p == ring[0] {
      OnePointOnLine(ring, ring[0]);
    } else {
      var p :| p in ring && p != ring[0];
      assert ring[..|ring|] == ring;
      WalkPoints(ring, |ring|, p);
    }
  }

  lemma SqueezedPoints(ring: Ring, p: Point)
    requires ring != [] && |Walk(ring, |ring|)| > 1
    ensures p in ring <==> p in Squeezed(ring)
  {
    var path := Walk(ring, |ring|);
    WalkPoints(ring, |ring|, p);
    assert ring[..|ring|] == ring;
    assert path == Squeezed(ring) + [ring[0]] && Squeezed(ring)[0] == ring[0];
  }

  lemma SqueezedHasEdges(ring: Ring)
    requires !Collinear(ring)
    ensures SameEdges(ring, Squeezed(ring))
  {
    hide Collinear, HasStep, PathStep, Walk;
    WalkMoves(ring);
    var path := Walk(ring, |ring|);
    forall p ensures p in ring <==> p in Squeezed(ring) { SqueezedPoints(ring, p); }
    forall a, b | a != b
      ensures HasStep(ring, |ring|, a, b) <==> HasStep(Squeezed(ring), |Squeezed(ring)|, a, b)
    {
      WalkSteps(ring, |ring|, a, b);
      ClosedSteps(path, a, b);
    }
  }

  // ---------- the same region and area ----------

  lemma ConvexSteps(ring: Ring)
    ensures Convex(ring) <==> forall a, b, q :: a != b && HasStep(ring, |ring|, a, b) && q in ring ==> Inside(q, a, b)
  {
    hide Side;
    if forall a, b, q :: a != b && HasStep(ring, |ring|, a, b) && q in ring ==> Inside(q, a, b) {
      forall k, q | 0 <= k < |ring| && q in ring ensures Inside(q, ring[k], Next(ring, k)) {
        if ring[k] == Next(ring, k) { NoEdgeNoSide(q, ring[k]); }
      }
    } else {
      var a, b, q :| a != b && HasStep(ring, |ring|, a, b) && q in ring && !Inside(q, a, b);
      var k :| 0 <= k < |ring| && ring[k] == a && Next(ring, k) == b;
      assert !AllInside(ring, ring[k], Next(ring, k));
    }
  }

  lemma NoEdgeNoSide(q: Point, a: Point)
    ensures Side(q, a, a) == 0.0
  {
  }

  lemma SameRegion(ring: Ring, other: Ring)
    requires SameEdges(ring, other)
    ensures Convex(ring) <==> Convex(other)
  {
    hide Convex, HasStep;
    ConvexSteps(ring);
    ConvexSteps(other);
  }

  lemma SameLine(ring: Ring, other: Ring)
    requires SameEdges(ring, other) && Collinear(other)
    ensures Collinear(ring)
  {
    hide HasStep, Side;
    forall i, j, k | 0 <= i < |ring| && 0 <= j < |ring| && 0 <= k < |ring| ensures Side(ring[k], ring[i], ring[j]) == 0.0 {
      assert ring[i] in ring && ring[j] in ring && ring[k] in ring;
    }
  }

  lemma StepBack(ring: Ring, a: Point, b: Point)
    requires HasStep(ring, |ring|, a, b)
    ensures HasStep(Reversed(ring), |Reversed(ring)|, b, a)
  {
    var k :| 0 <= k < |ring| && ring[k] == a && Next(ring, k) == b;
    var j := BackAt(ring, k);
  }

  lemma StepsBack(ring: Ring, a: Point, b: Point)
    ensures HasStep(Reversed(ring), |Reversed(ring)|, a, b) <==> HasStep(ring, |ring|, b, a)
  {
    hide HasStep, Reversed;
    ReversedTwice(ring);
    if HasStep(ring, |ring|, b, a) { StepBack(ring, b, a); }
    if HasStep(Reversed(ring), |Reversed(ring)|, a, b) { StepBack(Reversed(ring), a, b); }
  }

  lemma ReversedTwice(ring: Ring)
    ensures Reversed(Reversed(ring)) == ring
  {
  }

  lemma ReversedPoints(ring: Ring, p: Point)
    ensures p in Reversed(ring) <==> p in ring
  {
    if p in ring { ReversedPoint(ring, p); }
  }

  lemma SameEdgesReversed(ring: Ring, other: Ring)
    requires SameEdges(ring, other)
    ensures SameEdges(Reversed(ring), Reversed(other))
  {
    hide HasStep, Reversed;
    forall p ensures p in Reversed(ring) <==> p in Reversed(other) {
      ReversedPoints(ring, p);
      ReversedPoints(other, p);
    }
    forall a, b | a != b
      ensures HasStep(Reversed(ring), |Reversed(ring)|, a, b) <==> HasStep(Reversed(other), |Reversed(other)|, a, b)
    {
      StepsBack(ring, a, b);
      StepsBack(other, a, b);
    }
  }

  function PathArea(path: Ring): real {
    if |path| < 2 then 0.0
    else PathArea(path[..|path| - 1]) + Cross(path[|path| - 2], path[|path| - 1])
  }

  lemma PathAreaGrows(path: Ring, p: Point)
    requires path != []
    ensures PathArea(path + [p]) == PathArea(path) + Cross(path[|path| - 1], p)
  {
    assert (path + [p])[..|path|] == path;
  }

  lemma StayingHasNoArea(p: Point)
    ensures Cross(p, p) == 0.0
  {
  }

  lemma {:induction false} WalkArea(ring: Ring, n: nat)
    requires ring != [] && n <= |ring|
    ensures PathArea(Walk(ring, n)) == CrossUpTo(ring, n)
    decreases n
  {
    hide Cross;
    if n > 0 {
      WalkArea(ring, n - 1);
      StayingHasNoArea(ring[n - 1]);
      PathAreaGrows(Walk(ring, n - 1), Next(ring, n - 1));
    }
  }

  lemma {:induction false} ClosedArea(path: Ring, n: nat)
    requires |path| > 1 && path[0] == path[|path| - 1] && n < |path|
    ensures CrossUpTo(path[..|path| - 1], n) == PathArea(path[..n + 1])
    decreases n
  {
    hide Cross;
    if n > 0 {
      ClosedArea(path, n - 1);
      var ring := path[..|path| - 1];
      assert path[..n + 1] == path[..n] + [path[n]] && path[..n][n - 1] == path[n - 1];
      PathAreaGrows(path[..n], path[n]);
      assert ring[n - 1] == path[n - 1] && Next(ring, n - 1) == path[n];
    }
  }

  lemma SqueezedArea(ring: Ring)
    requires !Collinear(ring)
    ensures Area2(Squeezed(ring)) == Area2(ring)
  {
    hide Collinear, Walk, PathArea, CrossUpTo;
    WalkMoves(ring);
    var path := Walk(ring, |ring|);
    WalkArea(ring, |ring|);
    ClosedArea(path, |path| - 1);
    assert path[..|path|] == path;
  }

  /** Squeezing a ring that is not on one line keeps its points and edges, its area, and whether it is convex. */
  lemma SqueezedAlike(ring: Ring)
    requires !Collinear(ring)
    ensures SameEdges(ring, Squeezed(ring)) && Area2(Squeezed(ring)) == Area2(ring)
    ensures !Collinear(Squeezed(ring)) && |Squeezed(ring)| >= 3
    ensures Convex(Ccw(Squeezed(ring))) <==> Convex(Ccw(ring))
  {
    hide Collinear, Convex, Squeezed, Reversed, Area2, HasStep;
    var q := Squeezed(ring);
    SqueezedHasEdges(ring);
    SqueezedArea(ring);
    if Collinear(q) { SameLine(ring, q); }
    if |q| < 3 { ShortOnLine(q); }
    if |ring| < 3 { ShortOnLine(ring); }
    SameEdgesReversed(ring, q);
    SameRegion(ring, q);
    SameRegion(Reversed(ring), Reversed(q));
  }

  // ---------- which rings squeezing changes, and how ----------

  ghost predicate Moves(ring: Ring) {
    forall k :: 0 <= k < |ring| ==> ring[k] != Next(ring, k)
  }

  lemma {:induction false} WalkNeverStays(ring: Ring, n: nat, j: nat)
    requires ring != [] && n <= |ring| && j + 1 < |Walk(ring, n)|
    ensures Walk(ring, n)[j] != Walk(ring, n)[j + 1]
    decreases n
  {
    if n > 0 && j + 1 < |Walk(ring, n - 1)| {
      WalkNeverStays(ring, n - 1, j);
    }
  }

  lemma SqueezedMoves(ring: Ring)
    ensures Moves(Squeezed(ring))
  {
    hide Walk;
    var q := Squeezed(ring);
    forall k | 0 <= k < |q| ensures q[k] != Next(q, k) {
      var path := Walk(ring, |ring|);
      WalkNeverStays(ring, |ring|, k);
      assert q[k] == path[k] && Next(q, k) == path[k + 1];
    }
  }

  ghost predicate AllDiffer(ring: Ring) {
    forall i, j :: 0 <= i < j < |ring| ==> ring[i] != ring[j]
  }

  lemma {:induction false} WalkAlong(ring: Ring, n: nat)
    requires |ring| > 1 && n < |ring| && forall k :: 0 <= k < n ==> ring[k] != ring[k + 1]
    ensures Walk(ring, n) == ring[..n + 1]
    decreases n
  {
    if n > 0 {
      WalkAlong(ring, n - 1);
      assert ring[..n + 1] == ring[..n] + [ring[n]];
    }
  }

  /** A ring that meets no vertex twice is its own squeezed ring, and so is the ring closed by its first vertex. */
  lemma SqueezedDistinct(ring: Ring)
    requires |ring| > 1 && AllDiffer(ring)
    ensures Squeezed(ring) == ring && Squeezed(ring + [ring[0]]) == ring
  {
    var n, closed := |ring|, ring + [ring[0]];
    WalkAlong(ring, n - 1);
    WalkAlong(closed, n);
    assert ring[n - 1] != ring[0];
    assert Walk(closed, n + 1) == Walk(closed, n) == closed;
    assert Walk(ring, n) == closed;
  }
}
