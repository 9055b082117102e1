/**
 What re-ordering by hash links returns, row by row: the legacy rows in ascending
 order, then the rows that a walk from the anchor reaches, each the first in the
 fetched order that extends the hash before it, then all others in ascending order.
 Ascending means by occurredAt and then id, each by its first differing unit.
 */
module OrderingShape {
  import opened Options
  import opened JsText
  import opened AuditRow
  import opened AuditChain
  import opened ChainOrder
  import opened ChainRecovery

  // ---------- ascending ----------

  ghost predicate Earlier(a: Row, b: Row) {
    || Precedes(a.body.occurredAt, b.body.occurredAt)
    || (a.body.occurredAt == b.body.occurredAt && Precedes(a.body.id, b.body.id))
  }

  ghost predicate Ascending(rows: seq<Row>) {
    forall i, j :: 0 <= i < j < |rows| ==> !Earlier(rows[j], rows[i])
  }

  lemma BeforeIsEarlier(a: Row, b: Row)
    ensures Before(a, b) <==> Earlier(a, b)
  {
    hide Precedes;
    LessIsFirstDifference(a.body.occurredAt, b.body.occurredAt);
    LessIsFirstDifference(a.body.id, b.body.id);
  }

  lemma SortAscends(rows: seq<Row>)
    ensures Ascending(SortRows(rows))
  {
    hide Before, Earlier;
    var s := SortRows(rows);
    SortInOrder(rows);
    forall i, j | 0 <= i < j < |s| ensures !Earlier(s[j], s[i]) { BeforeIsEarlier(s[j], s[i]); }
  }

  // The rows of one instant and id, in order.
  function Ties(rows: seq<Row>, occurredAt: Str, id: Str): seq<Row> {
    if rows == [] then []
    else (if Tie(rows[0], occurredAt, id) then [rows[0]] else []) + Ties(rows[1..], occurredAt, id)
  }

  lemma {:induction false} InsertKeepsTies(r: Row, rows: seq<Row>, occurredAt: Str, id: Str)
    ensures Ties(InsertRow(r, rows), occurredAt, id) == Ties([r] + rows, occurredAt, id)
  {
    hide Before, Tie, Ties;
    if rows == [] {
      assert [r] + [] == [r];
    } else if Before(rows[0], r) {
      InsertKeepsTies(r, rows[1..], occurredAt, id);
      TiesFirst(rows[0], InsertRow(r, rows[1..]), occurredAt, id);
      TiesFirst(rows[0], rows[1..], occurredAt, id);
      TiesFirst(r, rows[1..], occurredAt, id);
      TiesFirst(r, rows, occurredAt, id);
      assert rows == [rows[0]] + rows[1..];
      TieOnce(rows[0], r, occurredAt, id);
    }
  }

  predicate Tie(r: Row, occurredAt: Str, id: Str) { r.body.occurredAt == occurredAt && r.body.id == id }

  lemma TiesFirst(r: Row, rest: seq<Row>, occurredAt: Str, id: Str)
    ensures Ties([r] + rest, occurredAt, id) == (if Tie(r, occurredAt, id) then [r] else []) + Ties(rest, occurredAt, id)
  {
    assert ([r] + rest)[1..] == rest;
  }

  lemma TieOnce(a: Row, b: Row, occurredAt: Str, id: Str)
    requires Before(a, b)
    ensures !Tie(a, occurredAt, id) || !Tie(b, occurredAt, id)
  {
    LessIrreflexive(b.body.occurredAt);
    LessIrreflexive(b.body.id);
  }

  /** Sorting is stable: rows with one occurredAt and id keep their order. */
  lemma {:induction false} SortKeepsTies(rows: seq<Row>, occurredAt: Str, id: Str)
    ensures Ties(SortRows(rows), occurredAt, id) == Ties(rows, occurredAt, id)
  {
    if rows != [] {
      SortKeepsTies(rows[1..], occurredAt, id);
      InsertKeepsTies(rows[0], SortRows(rows[1..]), occurredAt, id);
      assert ([rows[0]] + SortRows(rows[1..]))[1..] == SortRows(rows[1..]);
    }
  }

  // ---------- the walk ----------

  // Among the chained rows, r is the first that extends the hash.
  ghost predicate FirstWith(rows: seq<Row>, prev: Str, r: Row) {
    exists n :: 0 <= n < |rows| && FirstAt(rows, prev, n) && rows[n] == r
  }

  predicate FirstAt(rows: seq<Row>, prev: Str, n: nat)
    requires n < |rows|
  {
    && !rows[n].Sentinel() && rows[n].prevHash == prev
    && forall m :: 0 <= m < n ==> rows[m].Sentinel() || rows[m].prevHash != prev
  }

  predicate Extended(rows: seq<Row>, prev: Str) {
    exists r :: r in rows && !r.Sentinel() && r.prevHash == prev
  }

  lemma FirstSnoc(rows: seq<Row>, r: Row, prev: Str, s: Row)
    ensures FirstWith(rows + [r], prev, s) <==>
      FirstWith(rows, prev, s) || (!Extended(rows, prev) && !r.Sentinel() && r.prevHash == prev && s == r)
    ensures Extended(rows + [r], prev) <==> Extended(rows, prev) || (!r.Sentinel() && r.prevHash == prev)
  {
    var more := rows + [r];
    assert more[|rows|] == r && forall m :: 0 <= m < |rows| ==> more[m] == rows[m];
    forall n | 0 <= n < |rows| ensures FirstAt(more, prev, n) <==> FirstAt(rows, prev, n) {
      FirstStays(rows, r, prev, n);
    }
    if FirstWith(rows, prev, s) {
      var n :| 0 <= n < |rows| && FirstAt(rows, prev, n) && rows[n] == s;
      assert FirstAt(more, prev, n);
    }
    assert FirstAt(more, prev, |rows|) <==> !Extended(rows, prev) && !r.Sentinel() && r.prevHash == prev;
  }

  lemma FirstStays(rows: seq<Row>, r: Row, prev: Str, n: nat)
    requires n < |rows|
    ensures FirstAt(rows + [r], prev, n) <==> FirstAt(rows, prev, n)
  {
    assert forall m :: 0 <= m <= n ==> (rows + [r])[m] == rows[m];
  }

  // What the index of the chained rows says of one hash.
  ghost predicate Indexed(rows: seq<Row>, prev: Str) {
    var m := ByPrev(Filter(rows, NotSentinel));
    && (prev in m <==> Extended(rows, prev))
    && (forall r :: FirstWith(rows, prev, r) <==> prev in m && m[prev] == r)
  }

  lemma IndexGrows(rows: seq<Row>, r: Row, prev: Str)
    ensures (var m, n := ByPrev(Filter(rows, NotSentinel)), ByPrev(Filter(rows + [r], NotSentinel));
             n == if r.Sentinel() || r.prevHash in m then m else m[r.prevHash := r])
  {
    hide ByPrev, Filter;
    FilterSnoc(rows, r, NotSentinel);
    IndexSnoc(Filter(rows, NotSentinel), r);
    assert Filter(rows, NotSentinel) + [] == Filter(rows, NotSentinel);
  }

  lemma IndexedStays(rows: seq<Row>, r: Row, prev: Str)
    requires Indexed(rows, prev)
    ensures Indexed(rows + [r], prev)
  {
    hide ByPrev, Filter, FirstWith, Extended;
    IndexGrows(rows, r, prev);
    FirstSnoc(rows, r, prev, r);
    forall s: Row
      ensures FirstWith(rows + [r], prev, s) <==>
              FirstWith(rows, prev, s) || (!Extended(rows, prev) && !r.Sentinel() && r.prevHash == prev && s == r)
    {
      FirstSnoc(rows, r, prev, s);
    }
  }

  lemma {:induction false} IndexIsFirst(rows: seq<Row>, prev: Str)
    ensures Indexed(rows, prev)
  {
    if rows != [] {
      hide Indexed;
      var n := |rows| - 1;
      IndexIsFirst(rows[..n], prev);
      IndexedStays(rows[..n], rows[n], prev);
      assert rows == rows[..n] + [rows[n]];
    }
  }

  // ---------- the anchor ----------

  // A chained row whose prevHash no chained row produced.
  ghost predicate IsHead(rows: seq<Row>, h: Row) {
    h in rows && !h.Sentinel() && forall r :: r in rows && !r.Sentinel() ==> r.rowHash != h.prevHash
  }

  // The genesis hash if some row extends it; else what the earliest head extends, if there is a head.
  ghost predicate IsAnchor(rows: seq<Row>, genesis: Option<Str>, anchor: Option<Str>) {
    if genesis.Some? && Extended(rows, genesis.value) then anchor == genesis
    else
      match anchor
      case None => forall h :: !IsHead(rows, h)
      case Some(a) => exists h :: IsHead(rows, h) && h.prevHash == a && forall g :: IsHead(rows, g) ==> !Earlier(g, h)
  }

  lemma HeadsListed(rows: seq<Row>, r: Row)
    ensures (var live := Filter(rows, NotSentinel);
             r in SortRows(Filter(live, PrevOutside(Hashes(live)))) <==> IsHead(rows, r))
  {
    hide SortRows;
    var live := Filter(rows, NotSentinel);
    var heads := Filter(live, PrevOutside(Hashes(live)));
    assert r in SortRows(heads) <==> r in multiset(SortRows(heads));
    assert r in heads <==> r in multiset(heads);
    FilterIn(live, PrevOutside(Hashes(live)), r);
    forall s: Row ensures s in live <==> s in rows && !s.Sentinel() { FilterIn(rows, NotSentinel, s); }
  }

  lemma FirstIsEarliest(s: seq<Row>, r: Row)
    requires Ascending(s) && r in s
    ensures !Earlier(r, s[0])
  {
    BeforeIrreflexive(s[0]);
    BeforeIsEarlier(s[0], s[0]);
  }

  lemma StartIsAnchor(rows: seq<Row>, genesis: Option<Str>)
    ensures IsAnchor(rows, genesis, Start(Filter(rows, NotSentinel), genesis))
  {
    hide Extended, Earlier, SortRows, ByPrev, IsHead, Filter;
    var live := Filter(rows, NotSentinel);
    var heads := SortRows(Filter(live, PrevOutside(Hashes(live))));
    if genesis.Some? { IndexIsFirst(rows, genesis.value); }
    forall r: Row ensures r in heads <==> IsHead(rows, r) { HeadsListed(rows, r); }
    SortAscends(Filter(live, PrevOutside(Hashes(live))));
    if heads != [] {
      assert IsHead(rows, heads[0]);
      forall g | IsHead(rows, g) ensures !Earlier(g, heads[0]) { FirstIsEarliest(heads, g); }
    }
  }

  // ---------- the whole result ----------

  ghost predicate Used(walk: seq<Row>, hash: Str) { exists w :: w in walk && w.rowHash == hash }

  // The walk from an anchor: each row the first that extends the hash before it, no hash twice, and no way on.
  ghost predicate WalksFrom(rows: seq<Row>, anchor: Option<Str>, walk: seq<Row>) {
    match anchor
    case None => walk == []
    case Some(a) => Steps(rows, a, walk) && Fresh(walk) && Ends(rows, EndOf(a, walk), walk)
  }

  ghost predicate Steps(rows: seq<Row>, a: Str, walk: seq<Row>) {
    forall i :: 0 <= i < |walk| ==> FirstWith(rows, Reaching(a, walk, i), walk[i])
  }

  // The hash that row i of the walk extends.
  function Reaching(a: Str, walk: seq<Row>, i: nat): Str
    requires i < |walk|
  {
    if i == 0 then a else walk[i - 1].rowHash
  }

  predicate Fresh(walk: seq<Row>) {
    forall i, j :: 0 <= i < j < |walk| ==> walk[i].rowHash != walk[j].rowHash
  }

  ghost predicate Ends(rows: seq<Row>, end: Str, walk: seq<Row>) {
    forall r :: FirstWith(rows, end, r) ==> Used(walk, r.rowHash)
  }

  lemma {:induction false} WalkEnds(m: map<Str, Row>, cursor: Str, used: set<Str>)
    ensures (var w := Walk(m, cursor, used); var end := EndOf(cursor, w);
             end in m ==> m[end].rowHash in used || Used(w, m[end].rowHash))
    decreases |Unused(m, used)|
  {
    if cursor in m && m[cursor].rowHash !in used {
      var next := m[cursor];
      UnusedShrinks(m, cursor, used);
      WalkStep(m, cursor, used);
      WalkEnds(m, next.rowHash, used + {next.rowHash});
      var rest := Walk(m, next.rowHash, used + {next.rowHash});
      assert next in [next] + rest && forall w :: w in rest ==> w in [next] + rest;
    } else {
      WalkEnd(m, cursor, used);
    }
  }

  lemma ReachedWalks(rows: seq<Row>, genesis: Option<Str>)
    ensures (var live := Filter(rows, NotSentinel); WalksFrom(rows, Start(live, genesis), Reached(live, genesis)))
  {
    hide FirstWith, Used, Extended, Start, Walk, ByPrev, Filter;
    var live := Filter(rows, NotSentinel);
    var m, walk := ByPrev(live), Reached(live, genesis);
    ReachedFacts(live, genesis);
    if Start(live, genesis).Some? {
      var a := Start(live, genesis).value;
      forall i | 0 <= i < |walk| ensures FirstWith(rows, Reaching(a, walk, i), walk[i]) {
        IndexIsFirst(rows, walk[i].prevHash);
      }
      WalkEnds(m, a, {});
      var end := EndOf(a, walk);
      IndexIsFirst(rows, end);
      assert walk == Walk(m, a, {});
      forall r | FirstWith(rows, end, r) ensures Used(walk, r.rowHash) { assert end in m && m[end] == r; }
      assert Steps(rows, a, walk);
      assert Ends(rows, end, walk);
    }
  }

  // How often each row is listed: as often as it was fetched, if it belongs here.
  ghost predicate Lists(part: seq<Row>, rows: seq<Row>, r: Row, belongs: bool) {
    multiset(part)[r] == if belongs then multiset(rows)[r] else 0
  }

  /**
   The re-ordered rows: the legacy rows ascending, the walk from the anchor, and
   the other rows ascending; every row is in the part it belongs to.
   */
  lemma OrderedIs(rows: seq<Row>, genesis: Option<Str>)
    returns (legacy: seq<Row>, anchor: Option<Str>, walk: seq<Row>, rest: seq<Row>)
    ensures Ordered(rows, genesis) == legacy + walk + rest
    ensures IsAnchor(rows, genesis, anchor) && WalksFrom(rows, anchor, walk)
    ensures Ascending(legacy) && Ascending(rest)
    ensures forall r: Row :: Lists(legacy, rows, r, r.Sentinel())
    ensures forall r: Row :: Lists(rest, rows, r, !r.Sentinel() && !Used(walk, r.rowHash))
  {
    hide IsAnchor, WalksFrom, Ascending, SortRows, Filter, Start, Reached;
    var live := Filter(rows, NotSentinel);
    anchor, walk := Start(live, genesis), Reached(live, genesis);
    legacy, rest := SortRows(Filter(rows, Legacy)), SortRows(Filter(live, HashOutside(Hashes(walk))));
    StartIsAnchor(rows, genesis);
    ReachedWalks(rows, genesis);
    SortAscends(Filter(rows, Legacy));
    SortAscends(Filter(live, HashOutside(Hashes(walk))));
    forall r: Row ensures Lists(legacy, rows, r, r.Sentinel()) { FilterCounts(rows, Legacy, r); }
    forall r: Row ensures Lists(rest, rows, r, !r.Sentinel() && !Used(walk, r.rowHash)) {
      FilterCounts(rows, NotSentinel, r);
      FilterCounts(live, HashOutside(Hashes(walk)), r);
    }
  }
}
