/**
 Clipping conserves area: cutting any ring, convex or not, along a line leaves
 two rings whose signed shoelace areas add up to the area of the ring.

 Areas are measured as seen from a point o on the cutting line. Seen from
 there, every detour that a pass makes along the line has no area, so what
 counts is the kept part of each segment.
 */
module ClipArea {
  import opened Options
  import opened PolygonClip

  // Twice the signed area of the triangle o, p, q.
  function From(o: Point, p: Point, q: Point): real {
    (p.x - o.x) * (q.y - o.y) - (q.x - o.x) * (p.y - o.y)
  }

  // ---------- facts about triangles ----------

  lemma FromOrigin(o: Point, p: Point, q: Point)
    ensures Cross(p, q) == From(o, p, q) + Cross(o, q) - Cross(o, p)
  {
  }

  lemma FromSplit(o: Point, p: Point, q: Point, t: real)
    ensures From(o, p, Along(p, q, t)) == t * From(o, p, q)
    ensures From(o, Along(p, q, t), q) == (1.0 - t) * From(o, p, q)
  {
  }

  // Points on one line span no area.
  lemma OnLineNoArea(o: Point, p: Point, q: Point, a: Point, b: Point)
    requires a != b && Side(o, a, b) == 0.0 && Side(p, a, b) == 0.0 && Side(q, a, b) == 0.0
    ensures From(o, p, q) == 0.0
  {
  }

  lemma SideBackwards(p: Point, a: Point, b: Point)
    ensures Side(p, b, a) == -Side(p, a, b)
  {
  }

  // ---------- open paths ----------

  // The area swept from o along v and then the points of ps.
  function Path(o: Point, v: Point, ps: Ring): real
    decreases |ps|
  {
    if ps == [] then 0.0 else From(o, v, ps[0]) + Path(o, ps[0], ps[1..])
  }

  function Last(v: Point, ps: Ring): Point { if ps == [] then v else ps[|ps| - 1] }

  lemma {:induction false} PathAppend(o: Point, v: Point, ps: Ring, qs: Ring)
    ensures Path(o, v, ps + qs) == Path(o, v, ps) + Path(o, Last(v, ps), qs)
    ensures Last(v, ps + qs) == Last(Last(v, ps), qs)
    decreases |ps|
  {
    if ps == [] {
      assert ps + qs == qs;
    } else {
      assert (ps + qs)[1..] == ps[1..] + qs;
      PathAppend(o, ps[0], ps[1..], qs);
    }
  }

  // ---------- what a pass keeps of one segment ----------

  // The kept part of the segment p -> q, as area seen from o.
  function Part(o: Point, p: Point, q: Point, a: Point, b: Point): real {
    if Inside(p, a, b) then
      if Inside(q, a, b) then From(o, p, q)
      else match Intersect(p, q, a, b) case Some(x) => From(o, p, x) case None => 0.0
    else
      if Inside(q, a, b) then match Intersect(p, q, a, b) case Some(x) => From(o, x, q) case None => 0.0
      else 0.0
  }

  // Where the clipped path stands after segment end q: at q if it is kept, else somewhere on the line.
  predicate Stands(v: Point, q: Point, a: Point, b: Point) {
    if Inside(q, a, b) then v == q else Side(v, a, b) == 0.0
  }

  lemma EmitPath(o: Point, v: Point, p: Point, q: Point, a: Point, b: Point)
    requires a != b && Side(o, a, b) == 0.0 && Stands(v, p, a, b)
    ensures Path(o, v, Emit(p, q, a, b)) == Part(o, p, q, a, b)
    ensures Stands(Last(v, Emit(p, q, a, b)), q, a, b)
  {
    if Inside(p, a, b) != Inside(q, a, b) {
      IntersectCuts(p, q, a, b);
      CrossingsExist(p, q, a, b);
      var x := Intersect(p, q, a, b).value;
      assert Side(x, a, b) == 0.0;
      ShortPath(o, v, x, q);
      if Inside(q, a, b) { OnLineNoArea(o, v, x, a, b); }
      hide Intersect, Side, From, Emit, Path, Along;
    } else {
      ShortPath(o, v, q, q);
      hide Intersect, Side, From, Path;
    }
  }

  lemma ShortPath(o: Point, v: Point, x: Point, q: Point)
    ensures Path(o, v, []) == 0.0 && Path(o, v, [x]) == From(o, v, x) && Path(o, v, [x, q]) == From(o, v, x) + From(o, x, q)
  {
    assert [x][1..] == [] && [x, q][1..] == [q] && [q][1..] == [];
    assert Path(o, x, [q]) == From(o, x, q) + Path(o, q, []);
  }

  // The two sides of the line share every segment between them.
  lemma PartsAddUp(o: Point, p: Point, q: Point, a: Point, b: Point)
    requires a != b && Side(o, a, b) == 0.0
    ensures Part(o, p, q, a, b) + Part(o, p, q, b, a) == From(o, p, q)
  {
    var u, v := Side(p, a, b), Side(q, a, b);
    SideBackwards(p, a, b);
    SideBackwards(q, a, b);
    IntersectBySides(p, q, a, b);
    IntersectBySides(p, q, b, a);
    if u == 0.0 && v == 0.0 {
      OnLineNoArea(o, p, q, a, b);
    } else if u != v {
      var t := u / (u - v);
      SameRatio(u, v);
      FromSplit(o, p, q, t);
      hide Intersect, Side, From, Along;
      EndRatios(u, v);
    }
  }

  lemma SameRatio(u: real, v: real)
    requires u != v
    ensures -u / (-u - -v) == u / (u - v)
  {
  }

  lemma EndRatios(u: real, v: real)
    requires u != v
    ensures u == 0.0 ==> u / (u - v) == 0.0
    ensures v == 0.0 ==> u / (u - v) == 1.0
  {
  }

  // ---------- a whole pass ----------

  function PartsUpTo(o: Point, ring: Ring, a: Point, b: Point, n: nat): real
    requires n <= |ring|
  {
    if n == 0 then 0.0 else PartsUpTo(o, ring, a, b, n - 1) + Part(o, Prev(ring, n - 1), ring[n - 1], a, b)
  }

  lemma {:induction false} PassPath(o: Point, v: Point, ring: Ring, a: Point, b: Point, n: nat)
    requires a != b && Side(o, a, b) == 0.0 && n <= |ring|
    requires ring != [] ==> Stands(v, ring[|ring| - 1], a, b)
    ensures Path(o, v, PassUpTo(ring, a, b, n)) == PartsUpTo(o, ring, a, b, n)
    ensures ring != [] ==>
      Stands(Last(v, PassUpTo(ring, a, b, n)), ring[if n == 0 then |ring| - 1 else n - 1], a, b)
  {
    hide Part, Emit, From, Side, Stands;
    if n > 0 {
      var done := PassUpTo(ring, a, b, n - 1);
      PassPath(o, v, ring, a, b, n - 1);
      EmitPath(o, Last(v, done), Prev(ring, n - 1), ring[n - 1], a, b);
      PathAppend(o, v, done, Emit(Prev(ring, n - 1), ring[n - 1], a, b));
    }
  }

  // The area of a ring is that of the closed path round it, seen from anywhere.
  lemma {:induction false} PathFromOrigin(o: Point, v: Point, ps: Ring)
    ensures Path(Point(0.0, 0.0), v, ps) == Path(o, v, ps) + Cross(o, Last(v, ps)) - Cross(o, v)
    decreases |ps|
  {
    if ps != [] {
      FromOrigin(o, v, ps[0]);
      PathFromOrigin(o, ps[0], ps[1..]);
    }
  }

  lemma {:induction false} PathIsCrossSum(ring: Ring, n: nat)
    requires n < |ring|
    ensures Path(Point(0.0, 0.0), ring[0], ring[1..n + 1]) == CrossUpTo(ring, n)
  {
    if n > 0 {
      PathIsCrossSum(ring, n - 1);
      assert ring[1..n + 1] == ring[1..n] + [ring[n]];
      PathAppend(Point(0.0, 0.0), ring[0], ring[1..n], [ring[n]]);
      assert [ring[n]][1..] == [];
    } else {
      assert ring[1..1] == [];
    }
  }

  lemma AreaIsClosedPath(o: Point, ring: Ring)
    requires ring != []
    ensures Area2(ring) == Path(o, ring[|ring| - 1], ring)
  {
    var n, last := |ring| - 1, ring[|ring| - 1];
    PathIsCrossSum(ring, n);
    assert ring[1..n + 1] == ring[1..];
    PathFromOrigin(o, last, ring);
  }

  lemma PassArea(o: Point, ring: Ring, a: Point, b: Point)
    requires a != b && Side(o, a, b) == 0.0
    ensures Area2(Pass(ring, a, b)) == PartsUpTo(o, ring, a, b, |ring|)
  {
    var out := Pass(ring, a, b);
    if ring != [] {
      var end := ring[|ring| - 1];
      var v := if Inside(end, a, b) then end else o;
      PassPath(o, v, ring, a, b, |ring|);
      if out != [] {
        PassPath(o, out[|out| - 1], ring, a, b, |ring|);
        AreaIsClosedPath(o, out);
      }
    }
  }

  lemma {:induction false} PartsUpToAddUp(o: Point, ring: Ring, a: Point, b: Point, n: nat)
    requires a != b && Side(o, a, b) == 0.0 && 0 < n <= |ring|
    ensures PartsUpTo(o, ring, a, b, n) + PartsUpTo(o, ring, b, a, n) == Path(o, ring[|ring| - 1], ring[..n])
  {
    var last := ring[|ring| - 1];
    PartsAddUp(o, Prev(ring, n - 1), ring[n - 1], a, b);
    assert ring[..n] == ring[..n - 1] + [ring[n - 1]];
    PathAppend(o, last, ring[..n - 1], [ring[n - 1]]);
    assert [ring[n - 1]][1..] == [];
    if n > 1 { PartsUpToAddUp(o, ring, a, b, n - 1); }
  }

  /** The two passes along one line share the area of the ring between them. */
  lemma PassConservesArea(ring: Ring, a: Point, b: Point)
    requires a != b
    ensures Area2(Pass(ring, a, b)) + Area2(Pass(ring, b, a)) == Area2(ring)
  {
    assert Side(a, a, b) == 0.0;
    SideBackwards(a, a, b);
    PassArea(a, ring, a, b);
    PassArea(a, ring, b, a);
    if ring != [] {
      PartsUpToAddUp(a, ring, a, b, |ring|);
      assert ring[..|ring|] == ring;
      AreaIsClosedPath(a, ring);
    }
  }

  // ---------- the whole clip ----------

  // The area cut off by the edges from edge i on; an edge without length cuts nothing off.
  function CutOff(output: Ring, clip: Ring, i: nat): real
    requires i <= |clip|
    decreases |clip| - i
  {
    if i == |clip| || output == [] then 0.0
    else
      var a, b := clip[i], Next(clip, i);
      (if a == b then 0.0 else Area2(Pass(output, b, a))) + CutOff(Pass(output, a, b), clip, i + 1)
  }

  lemma ShortEdgeKeepsAll(ring: Ring, a: Point)
    ensures Pass(ring, a, a) == ring
  {
    assert AllInside(ring, a, a);
    PassAll(ring, a, a, |ring|);
    assert ring[..|ring|] == ring;
  }

  lemma {:induction false} ClipFromConserves(output: Ring, clip: Ring, i: nat)
    requires i <= |clip|
    ensures Area2(ClipFrom(output, clip, i)) + CutOff(output, clip, i) == Area2(output)
    decreases |clip| - i
  {
    hide Pass, Area2, Next;
    if i < |clip| && output != [] {
      var a, b := clip[i], Next(clip, i);
      if a == b { ShortEdgeKeepsAll(output, a); } else { PassConservesArea(output, a, b); }
      ClipFromConserves(Pass(output, a, b), clip, i + 1);
    }
  }

  /** Over a whole clip, what is kept and what the edges cut off add up to the subject. */
  lemma ClipConservesArea(subject: Ring, clip: Ring)
    requires |subject| >= 3 && |clip| >= 3
    ensures Area2(Clip(subject, clip)) + CutOff(Ccw(subject), Ccw(clip), 0) == Area2(Ccw(subject))
  {
    ClipFromConserves(Ccw(subject), Ccw(clip), 0);
  }
}
