/**
 What region clipping returns for any subject, convex or not: round a point
 strictly inside every edge of the clip ring the result winds as often as the
 subject does, and round a point strictly outside one of them not at all.

 Beyond an edge a path cannot go round a point that lies inside it, so there the
 turns add up to a difference of two ends, and a step along the edge's line
 replaces whatever the ring does beyond it.
 */
module ClipWinding {
  import opened Options
  import opened PolygonClip
  import opened ClipArea
  import opened ClipHull
  import opened ClipRegion

  predicate Up(p: Point, v: Point) { v.y > p.y }

  // How a step crosses the ray that goes right from p: upwards, downwards, or not.
  function Crosses(p: Point, v: Point, w: Point): int {
    if !Up(p, v) && Up(p, w) && From(p, v, w) > 0.0 then 1
    else if Up(p, v) && !Up(p, w) && From(p, v, w) < 0.0 then -1
    else 0
  }

  // The crossings of the path along v and ps.
  function Turns(p: Point, v: Point, ps: Ring): int
    decreases |ps|
  {
    if ps == [] then 0 else Crosses(p, v, ps[0]) + Turns(p, ps[0], ps[1..])
  }

  function TurnsUpTo(p: Point, ring: Ring, n: nat): int
    requires n <= |ring|
  {
    if n == 0 then 0 else TurnsUpTo(p, ring, n - 1) + Crosses(p, ring[n - 1], Next(ring, n - 1))
  }

  // How often the ring goes counter-clockwise round p.
  function Winding(p: Point, ring: Ring): int { TurnsUpTo(p, ring, |ring|) }

  // ---------- steps ----------

  lemma {:induction false} TurnsAppend(p: Point, v: Point, ps: Ring, qs: Ring)
    ensures Turns(p, v, ps + qs) == Turns(p, v, ps) + Turns(p, Last(v, ps), qs)
    decreases |ps|
  {
    hide Crosses;
    if ps == [] {
      assert ps + qs == qs;
    } else {
      assert (ps + qs)[1..] == ps[1..] + qs;
      TurnsAppend(p, ps[0], ps[1..], qs);
    }
  }

  lemma ShortTurns(p: Point, v: Point, x: Point, w: Point)
    ensures Turns(p, v, []) == 0 && Turns(p, v, [x]) == Crosses(p, v, x)
    ensures Turns(p, v, [x, w]) == Crosses(p, v, x) + Crosses(p, x, w)
  {
    hide Crosses;
    assert [x][1..] == [] && [x, w][1..] == [w] && [w][1..] == [];
    assert Turns(p, x, [w]) == Crosses(p, x, w) + Turns(p, w, []);
  }

  lemma UpBetween(p: Point, v: Point, w: Point, t: real)
    requires 0.0 <= t <= 1.0 && Up(p, v) == Up(p, w)
    ensures Up(p, Along(v, w, t)) == Up(p, v)
  {
    var x := Along(v, w, t);
    assert x.y - p.y == (1.0 - t) * (v.y - p.y) + t * (w.y - p.y);
    if Up(p, v) {
      if t > 0.0 { PositivePart(t, w.y - p.y); }
      NonNegative(1.0 - t, v.y - p.y);
    } else {
      NonNegative(1.0 - t, p.y - v.y);
      NonNegative(t, p.y - w.y);
    }
  }

  lemma PositivePart(t: real, f: real)
    requires t > 0.0
    ensures (t * f > 0.0 <==> f > 0.0) && (t * f < 0.0 <==> f < 0.0)
  {
  }

  lemma EndsOfStep(v: Point, w: Point)
    ensures Along(v, w, 0.0) == v && Along(v, w, 1.0) == w
  {
  }

  // The winding number is that of the closed path round the ring.
  lemma WindingIsPath(p: Point, ring: Ring)
    requires ring != []
    ensures Winding(p, ring) == Turns(p, ring[|ring| - 1], ring)
  {
    hide Crosses;
    PathTurns(p, ring, |ring| - 1);
    assert ring[1..] == ring[1..|ring|];
  }

  lemma {:induction false} PathTurns(p: Point, ring: Ring, n: nat)
    requires n < |ring|
    ensures Turns(p, ring[0], ring[1..n + 1]) == TurnsUpTo(p, ring, n)
  {
    hide Crosses;
    if n == 0 {
      assert ring[1..1] == [];
    } else {
      PathTurns(p, ring, n - 1);
      assert ring[1..n + 1] == ring[1..n] + [ring[n]];
      TurnsAppend(p, ring[0], ring[1..n], [ring[n]]);
      ShortTurns(p, ring[n - 1], ring[n], ring[n]);
    }
  }

  // Cutting a step in two changes nothing.
  lemma CrossesSplit(p: Point, v: Point, w: Point, t: real)
    requires 0.0 <= t <= 1.0
    ensures (var x := Along(v, w, t); Crosses(p, v, w) == Crosses(p, v, x) + Crosses(p, x, w))
  {
    hide From, Along, Up;
    FromSplit(p, v, w, t);
    EndsOfStep(v, w);
    var x, f := Along(v, w, t), From(p, v, w);
    if Up(p, v) == Up(p, w) {
      UpBetween(p, v, w, t);
    } else if Up(p, x) == Up(p, w) {
      SameSign(t, f, From(p, v, x));
    } else {
      SameSign(1.0 - t, f, From(p, x, w));
    }
  }

  lemma SameSign(t: real, f: real, g: real)
    requires t > 0.0 && g == t * f
    ensures (g > 0.0 <==> f > 0.0) && (g < 0.0 <==> f < 0.0)
  {
    PositivePart(t, f);
  }

  // ---------- beyond the edge ----------

  // Beyond an edge that p is inside of, crossings are differences of this.
  function Beyond(p: Point, v: Point, a: Point, b: Point): int {
    if b.y > a.y && Up(p, v) then 1 else 0
  }

  lemma CrossesBeyond(p: Point, v: Point, w: Point, a: Point, b: Point)
    requires Side(p, a, b) > 0.0 && Side(v, a, b) <= 0.0 && Side(w, a, b) <= 0.0
    ensures Crosses(p, v, w) == Beyond(p, w, a, b) - Beyond(p, v, a, b)
  {
    if Up(p, v) != Up(p, w) {
      if Up(p, w) { RisesBeyond(p, v, w, a, b); } else { RisesBeyond(p, w, v, a, b); FromBackwards(p, v, w); }
      hide From, Side;
    }
  }

  // A step beyond the edge that goes up past p passes it on the right if the edge goes up, else on the left.
  lemma RisesBeyond(p: Point, v: Point, w: Point, a: Point, b: Point)
    requires Side(p, a, b) > 0.0 && Side(v, a, b) <= 0.0 && Side(w, a, b) <= 0.0
    requires !Up(p, v) && Up(p, w)
    ensures From(p, v, w) > 0.0 <==> b.y > a.y
    ensures From(p, v, w) < 0.0 <==> b.y <= a.y
  {
    LeadIsSideGap(p, v, a, b);
    LeadIsSideGap(p, w, a, b);
    var e := Minus(b, a);
    LeadIsCross(p, v, a, b);
    LeadIsCross(p, w, a, b);
    FromIsCross(p, v, w);
    hide Side, From, Cross, Lead;
    RiseSign(e, Minus(v, p), Minus(w, p));
  }

  lemma LeadIsCross(p: Point, v: Point, a: Point, b: Point)
    ensures Lead(p, v, a, b) == Cross(Minus(b, a), Minus(v, p))
  {
  }

  lemma FromIsCross(p: Point, v: Point, w: Point)
    ensures From(p, v, w) == Cross(Minus(v, p), Minus(w, p))
  {
  }

  lemma RiseSign(e: Point, v: Point, w: Point)
    requires Cross(e, v) < 0.0 && Cross(e, w) < 0.0 && v.y <= 0.0 < w.y
    ensures Cross(v, w) > 0.0 <==> e.y > 0.0
    ensures Cross(v, w) < 0.0 <==> e.y <= 0.0
  {
    hide Cross;
    RiseIdentity(e, v, w);
    PositivePart(w.y, Cross(e, v));
    NonNegative(-v.y, -Cross(e, w));
    MinusTimes(v.y, Cross(e, w));
    SignsAgree(e.y, Cross(v, w));
  }

  lemma RiseIdentity(e: Point, v: Point, w: Point)
    ensures w.y * Cross(e, v) - v.y * Cross(e, w) == -(e.y * Cross(v, w))
  {
  }

  lemma MinusTimes(x: real, y: real)
    ensures -x * -y == x * y
  {
  }

  lemma SignsAgree(x: real, y: real)
    requires x * y > 0.0
    ensures (x > 0.0 && y > 0.0) || (x < 0.0 && y < 0.0)
  {
    if x > 0.0 { PositivePart(x, y); } else if x < 0.0 { PositivePart(-x, y); }
  }

  // ---------- a pass ----------

  // What the clipped path, waiting at v, has still to go to where the ring is, at q.
  function Behind(p: Point, v: Point, q: Point, a: Point, b: Point): int {
    if Inside(q, a, b) then 0 else Beyond(p, q, a, b) - Beyond(p, v, a, b)
  }

  // The cut of a step across the edge.
  lemma CutCrosses(p: Point, u: Point, w: Point, a: Point, b: Point) returns (x: Point)
    requires Inside(u, a, b) != Inside(w, a, b)
    ensures Intersect(u, w, a, b) == Some(x) && Side(x, a, b) == 0.0
    ensures Crosses(p, u, w) == Crosses(p, u, x) + Crosses(p, x, w)
  {
    hide Crosses, Intersect;
    IntersectCuts(u, w, a, b);
    var t := Side(u, a, b) / (Side(u, a, b) - Side(w, a, b));
    x := Along(u, w, t);
    CrossesSplit(p, u, w, t);
  }

  lemma EmitTurns(p: Point, v: Point, u: Point, w: Point, a: Point, b: Point)
    requires Side(p, a, b) > 0.0 && Stands(v, u, a, b)
    ensures (var out := Emit(u, w, a, b);
             && Stands(Last(v, out), w, a, b)
             && Turns(p, v, out) + Behind(p, Last(v, out), w, a, b) == Crosses(p, u, w) + Behind(p, v, u, a, b))
  {
    hide Crosses, Side, Intersect, Turns, Beyond;
    if Inside(u, a, b) != Inside(w, a, b) {
      var x := CutCrosses(p, u, w, a, b);
      ShortTurns(p, v, x, w);
      CrossingsExist(u, w, a, b);
      if Inside(w, a, b) {
        CrossesBeyond(p, v, x, a, b);
        CrossesBeyond(p, u, x, a, b);
      } else {
        CrossesBeyond(p, x, w, a, b);
      }
    } else {
      ShortTurns(p, v, w, w);
      assert Emit(u, w, a, b) == if Inside(w, a, b) then [w] else [];
      if !Inside(w, a, b) { CrossesBeyond(p, u, w, a, b); }
    }
  }

  lemma {:induction false} PassTurns(p: Point, v: Point, ring: Ring, a: Point, b: Point, n: nat)
    requires Side(p, a, b) > 0.0 && ring != [] && n <= |ring| && Stands(v, ring[|ring| - 1], a, b)
    ensures (var out, end, at := PassUpTo(ring, a, b, n), ring[|ring| - 1], ring[if n == 0 then |ring| - 1 else n - 1];
             && Stands(Last(v, out), at, a, b)
             && Turns(p, v, out) + Behind(p, Last(v, out), at, a, b) == Turns(p, end, ring[..n]) + Behind(p, v, end, a, b))
  {
    hide Emit, Side, Stands, Turns, Behind, Crosses;
    var end := ring[|ring| - 1];
    if n == 0 {
      ShortTurns(p, v, v, v);
      ShortTurns(p, end, v, v);
      assert ring[..0] == [];
    } else {
      var done, u, w := PassUpTo(ring, a, b, n - 1), Prev(ring, n - 1), ring[n - 1];
      PassTurns(p, v, ring, a, b, n - 1);
      EmitTurns(p, Last(v, done), u, w, a, b);
      TurnsAppend(p, v, done, Emit(u, w, a, b));
      LastAppend(v, done, Emit(u, w, a, b));
      assert ring[..n] == ring[..n - 1] + [w] && Last(end, ring[..n - 1]) == u;
      TurnsAppend(p, end, ring[..n - 1], [w]);
      ShortTurns(p, u, w, w);
    }
  }

  /** A pass keeps how often the ring winds round every point strictly inside its edge. */
  lemma PassKeepsWinding(p: Point, ring: Ring, a: Point, b: Point)
    requires Side(p, a, b) > 0.0
    ensures Winding(p, Pass(ring, a, b)) == Winding(p, ring)
  {
    if ring != [] {
      var out, end := Pass(ring, a, b), ring[|ring| - 1];
      var v := if Inside(end, a, b) then end else a;
      OnOwnLine(a, b);
      PassTurns(p, v, ring, a, b, |ring|);
      assert ring[..|ring|] == ring;
      hide Turns, Behind, Stands, Side, PassUpTo, Winding;
      ShortTurns(p, v, v, v);
      WindingIsPath(p, ring);
      if out == [] {
        NothingWinds(p);
      } else {
        PassTurns(p, out[|out| - 1], ring, a, b, |ring|);
        WindingIsPath(p, out);
      }
    }
  }

  lemma OnOwnLine(a: Point, b: Point)
    ensures Side(a, a, b) == 0.0
  {
  }

  // ---------- the whole clip ----------

  // Inside every edge that has a length, and on none.
  ghost predicate StrictlyInside(p: Point, ring: Ring) {
    forall k :: 0 <= k < |ring| ==> ring[k] == Next(ring, k) || Side(p, ring[k], Next(ring, k)) > 0.0
  }

  lemma {:induction false} ClipFromKeepsWinding(p: Point, output: Ring, clip: Ring, i: nat)
    requires i <= |clip| && StrictlyInside(p, clip)
    ensures Winding(p, ClipFrom(output, clip, i)) == Winding(p, output)
    decreases |clip| - i
  {
    hide Winding, Pass, Side;
    if i < |clip| && output != [] {
      var a, b := clip[i], Next(clip, i);
      if a == b { ShortEdgeKeepsAll(output, a); } else { PassKeepsWinding(p, output, a, b); }
      ClipFromKeepsWinding(p, Pass(output, a, b), clip, i + 1);
    } else {
      NothingWinds(p);
    }
  }

  lemma NothingWinds(p: Point)
    ensures Winding(p, []) == 0
  {
  }

  lemma {:induction false} TurnsBeyond(p: Point, v: Point, ps: Ring, a: Point, b: Point)
    requires Side(p, a, b) > 0.0 && Side(v, a, b) <= 0.0 && forall q <- ps :: Side(q, a, b) <= 0.0
    ensures Turns(p, v, ps) == Beyond(p, Last(v, ps), a, b) - Beyond(p, v, a, b)
    decreases |ps|
  {
    hide Side, Crosses, Beyond;
    if ps != [] {
      CrossesBeyond(p, v, ps[0], a, b);
      TurnsBeyond(p, ps[0], ps[1..], a, b);
    }
  }

  // A ring on the other side of a line from p does not go round p.
  lemma BeyondWindsNot(p: Point, ring: Ring, a: Point, b: Point)
    requires Side(p, a, b) < 0.0 && AllInside(ring, a, b)
    ensures Winding(p, ring) == 0
  {
    hide Side, Turns, Winding;
    SideBackwards(p, a, b);
    forall q | q in ring ensures Side(q, b, a) <= 0.0 { SideBackwards(q, a, b); }
    if ring == [] {
      NothingWinds(p);
    } else {
      WindingIsPath(p, ring);
      TurnsBeyond(p, ring[|ring| - 1], ring, b, a);
    }
  }

  /**
   Whatever the subject, clipping returns a ring that winds round every point
   strictly inside the clip ring as the subject does, and round no point that is
   outside one of its edges.
   */
  lemma ClipWinds(subject: Ring, clip: Ring, p: Point)
    requires |subject| >= 3 && |clip| >= 3
    ensures StrictlyInside(p, Ccw(clip)) ==> Winding(p, Clip(subject, clip)) == Winding(p, Ccw(subject))
    ensures !InsideAll(p, Ccw(clip)) ==> Winding(p, Clip(subject, clip)) == 0
  {
    hide Winding, Side, Ccw, StrictlyInside;
    var out, c := Clip(subject, clip), Ccw(clip);
    if StrictlyInside(p, c) { ClipFromKeepsWinding(p, Ccw(subject), c, 0); }
    if !InsideAll(p, c) {
      var k :| 0 <= k < |c| && !Inside(p, c[k], Next(c, k));
      forall q | q in out ensures Inside(q, c[k], Next(c, k)) { ClipContained(subject, clip, q); }
      BeyondWindsNot(p, out, c[k], Next(c, k));
    }
  }

  // ---------- what the winding number tells ----------

  lemma CrossesBack(p: Point, v: Point, w: Point)
    ensures Crosses(p, w, v) == -Crosses(p, v, w)
  {
    FromBackwards(p, v, w);
    hide From, Up;
  }

  lemma {:induction false} ReversedTurns(p: Point, ring: Ring, k: nat)
    requires k < |ring|
    ensures (var n := |ring| - 1;
             TurnsUpTo(p, Reversed(ring), k) == TurnsUpTo(p, ring, n - k) - TurnsUpTo(p, ring, n))
  {
    hide Crosses;
    if k > 0 {
      ReversedTurns(p, ring, k - 1);
      var n, r := |ring| - 1, Reversed(ring);
      assert r[k - 1] == Next(ring, n - k) && Next(r, k - 1) == ring[n - k];
      CrossesBack(p, ring[n - k], Next(ring, n - k));
    }
  }

  /** Reversing a ring reverses how it winds. */
  lemma ReversedWinds(p: Point, ring: Ring)
    ensures Winding(p, Reversed(ring)) == -Winding(p, ring)
  {
    hide Crosses;
    if ring != [] {
      var n, r := |ring| - 1, Reversed(ring);
      ReversedTurns(p, ring, n);
      assert r[n] == ring[0] && Next(r, n) == ring[n] == r[0] && Next(ring, n) == ring[0];
      CrossesBack(p, ring[n], ring[0]);
    }
  }

  // Every step of the path turns counter-clockwise round p.
  predicate Forward(p: Point, v: Point, ps: Ring)
    decreases |ps|
  {
    ps == [] || (From(p, v, ps[0]) > 0.0 && Forward(p, ps[0], ps[1..]))
  }

  // Such a path crosses only upwards; while it does not, it stays down once it is down.
  lemma {:induction false} ForwardTurns(p: Point, v: Point, ps: Ring, i: nat)
    requires Forward(p, v, ps) && i < |ps|
    ensures Turns(p, v, ps) >= 0
    ensures Turns(p, v, ps) == 0 && !Up(p, v) ==> !Up(p, ps[i])
    ensures Turns(p, v, ps) == 0 && !Up(p, ps[i]) ==> !Up(p, Last(v, ps))
    decreases |ps|
  {
    hide From, Up;
    if |ps| > 1 {
      ForwardTurns(p, ps[0], ps[1..], if i == 0 then 0 else i - 1);
      ForwardTurns(p, ps[0], ps[1..], |ps| - 2);
    } else {
      assert ps[1..] == [];
    }
  }

  lemma {:induction false} RingForward(p: Point, ring: Ring, k: nat)
    requires k < |ring| && forall j :: 0 <= j < |ring| ==> From(p, ring[j], Next(ring, j)) > 0.0
    ensures Forward(p, if k == 0 then ring[|ring| - 1] else ring[k - 1], ring[k..])
    decreases |ring| - k
  {
    hide From;
    assert From(p, ring[|ring| - 1], Next(ring, |ring| - 1)) > 0.0;
    if k > 0 { assert From(p, ring[k - 1], Next(ring, k - 1)) > 0.0; }
    if k + 1 < |ring| {
      RingForward(p, ring, k + 1);
      assert ring[k..][1..] == ring[k + 1..];
    } else {
      assert ring[k..] == [ring[k]] && [ring[k]][1..] == [];
    }
  }

  // The ring has p strictly inside every edge.
  ghost predicate Surrounds(ring: Ring, p: Point) {
    ring != [] && forall k :: 0 <= k < |ring| ==> Side(p, ring[k], Next(ring, k)) > 0.0
  }

  lemma SurroundsEdge(ring: Ring, p: Point, k: nat)
    requires Surrounds(ring, p) && k < |ring|
    ensures Side(p, ring[k], Next(ring, k)) > 0.0 && From(p, ring[k], Next(ring, k)) > 0.0
  {
    SideIsFrom(p, ring[k], Next(ring, k));
  }

  // Not every vertex is ahead of p in one direction.
  lemma NotAllAhead(p: Point, ring: Ring, c: Point, d: Point)
    requires Surrounds(ring, p)
    ensures !Ahead(p, ring, c, d)
  {
    hide Side, From, Ahead;
    SurroundsEdge(ring, p, 0);
    if Ahead(p, ring, c, d) { NoEdgeTurns(p, ring, c, d, 0); }
  }

  lemma LevelCorner(p: Point, m: Point, q: Point, n: Point)
    requires q.y == p.y && m.y <= p.y && n.y <= p.y
    ensures !(Side(p, m, q) > 0.0 && Side(p, q, n) > 0.0)
  {
    assert Side(p, m, q) == (q.y - m.y) * (q.x - p.x);
    assert Side(p, q, n) == (q.y - n.y) * (p.x - q.x);
    hide Side;
    if q.x <= p.x { NonNegative(q.y - m.y, p.x - q.x); } else { NonNegative(q.y - n.y, q.x - p.x); }
  }

  lemma SomeUp(p: Point, ring: Ring)
    requires Surrounds(ring, p)
    ensures exists i :: 0 <= i < |ring| && Up(p, ring[i])
  {
    hide Side, Surrounds, Next;
    if forall i :: 0 <= i < |ring| ==> !Up(p, ring[i]) {
      forall i | 0 <= i < |ring| ensures ring[i].y < p.y { NotLevel(p, ring, i); }
      AheadDown(p, ring);
      NotAllAhead(p, ring, Point(1.0, 0.0), Point(0.0, 0.0));
    }
  }

  lemma NotLevel(p: Point, ring: Ring, i: nat)
    requires Surrounds(ring, p) && i < |ring| && forall j :: 0 <= j < |ring| ==> !Up(p, ring[j])
    ensures ring[i].y < p.y
  {
    hide Side;
    var j := if i == 0 then |ring| - 1 else i - 1;
    assert Next(ring, j) == ring[i];
    SurroundsEdge(ring, p, j);
    SurroundsEdge(ring, p, i);
    assert !Up(p, ring[j]) && !Up(p, ring[i]) && !Up(p, ring[if i + 1 == |ring| then 0 else i + 1]);
    if ring[i].y == p.y { LevelCorner(p, ring[j], ring[i], Next(ring, i)); }
  }

  lemma AheadDown(p: Point, ring: Ring)
    requires forall i :: 0 <= i < |ring| ==> ring[i].y < p.y
    ensures Ahead(p, ring, Point(1.0, 0.0), Point(0.0, 0.0))
  {
  }

  lemma SomeDown(p: Point, ring: Ring)
    requires Surrounds(ring, p)
    ensures exists i :: 0 <= i < |ring| && !Up(p, ring[i])
  {
    hide Side, Surrounds;
    if forall i :: 0 <= i < |ring| ==> Up(p, ring[i]) {
      assert Ahead(p, ring, Point(0.0, 0.0), Point(1.0, 0.0));
      NotAllAhead(p, ring, Point(0.0, 0.0), Point(1.0, 0.0));
    }
  }

  /** A ring winds at least once round a point strictly inside all its edges. */
  lemma InsideIsWound(p: Point, ring: Ring)
    requires Surrounds(ring, p)
    ensures Winding(p, ring) >= 1
  {
    hide Side, From, Up, Turns, Winding;
    SomeUp(p, ring);
    SomeDown(p, ring);
    var i :| 0 <= i < |ring| && Up(p, ring[i]);
    var j :| 0 <= j < |ring| && !Up(p, ring[j]);
    forall k | 0 <= k < |ring| ensures From(p, ring[k], Next(ring, k)) > 0.0 { SurroundsEdge(ring, p, k); }
    var last := ring[|ring| - 1];
    RingForward(p, ring, 0);
    assert ring[0..] == ring;
    WindingIsPath(p, ring);
    ForwardTurns(p, last, ring, i);
    ForwardTurns(p, last, ring, j);
  }
}
