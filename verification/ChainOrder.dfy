/**
 Recovering chain order from rows fetched in wall-clock order
 (`orderByChainLinkage`): follow the hash links from the anchor, put legacy
 rows first and unreachable rows last.

 Re-ordering neither hides nor invents a break as long as row hashes are
 distinct, which the store's unique index enforces; without that it can hide one.
 */
module ChainOrder {
  import opened Options
  import opened JsText
  import opened AuditRow
  import opened AuditChain

  // ---------- the (occurredAt, id) tie-break ----------

  predicate Before(a: Row, b: Row) {
    Less(a.body.occurredAt, b.body.occurredAt)
    || (a.body.occurredAt == b.body.occurredAt && Less(a.body.id, b.body.id))
  }

  function InsertRow(r: Row, rows: seq<Row>): (s: seq<Row>)
    ensures multiset(s) == multiset{r} + multiset(rows)
  {
    if rows == [] then [r]
    else
      assert rows == [rows[0]] + rows[1..];
      if Before(rows[0], r) then [rows[0]] + InsertRow(r, rows[1..]) else [r] + rows
  }

  // A stable sort, as `Array.prototype.sort` is.
  function SortRows(rows: seq<Row>): (s: seq<Row>)
    ensures multiset(s) == multiset(rows)
  {
    if rows == [] then []
    else
      assert rows == [rows[0]] + rows[1..];
      InsertRow(rows[0], SortRows(rows[1..]))
  }

  // ---------- the indexes and the walk ----------

  // The first row that extends each hash.
  function ByPrev(rows: seq<Row>): map<Str, Row> {
    if rows == [] then map[]
    else
      var m, r := ByPrev(rows[..|rows| - 1]), rows[|rows| - 1];
      if r.prevHash in m then m else m[r.prevHash := r]
  }

  function Hashes(rows: seq<Row>): set<Str> {
    set r | r in rows :: r.rowHash
  }

  function Start(rows: seq<Row>, genesis: Option<Str>): Option<Str> {
    if genesis.Some? && genesis.value in ByPrev(rows) then genesis
    else
      var heads := SortRows(Filter(rows, PrevOutside(Hashes(rows))));
      if heads == [] then None else Some(heads[0].prevHash)
  }

  function Unused(m: map<Str, Row>, used: set<Str>): set<Str> {
    (set k | k in m :: m[k].rowHash) - used
  }

  lemma UnusedShrinks(m: map<Str, Row>, cursor: Str, used: set<Str>)
    requires cursor in m && m[cursor].rowHash !in used
    ensures |Unused(m, used + {m[cursor].rowHash})| < |Unused(m, used)|
  {
    var hash := m[cursor].rowHash;
    assert hash in Unused(m, used);
    assert Unused(m, used + {hash}) == Unused(m, used) - {hash};
  }

  function Walk(m: map<Str, Row>, cursor: Str, used: set<Str>): seq<Row>
    decreases |Unused(m, used)|
  {
    if cursor !in m || m[cursor].rowHash in used then []
    else
      var next := m[cursor];
      UnusedShrinks(m, cursor, used);
      [next] + Walk(m, next.rowHash, used + {next.rowHash})
  }

  function Reached(rows: seq<Row>, genesis: Option<Str>): seq<Row> {
    match Start(rows, genesis)
    case None => []
    case Some(start) => Walk(ByPrev(rows), start, {})
  }

  function Ordered(rows: seq<Row>, genesis: Option<Str>): seq<Row> {
    var live := Filter(rows, NotSentinel);
    var walk := Reached(live, genesis);
    SortRows(Filter(rows, Legacy)) + walk + SortRows(Filter(live, HashOutside(Hashes(walk))))
  }

  lemma IndexSnoc(rows: seq<Row>, r: Row)
    ensures ByPrev(rows + [r]) == if r.prevHash in ByPrev(rows) then ByPrev(rows) else ByPrev(rows)[r.prevHash := r]
    ensures Hashes(rows + [r]) == Hashes(rows) + {r.rowHash}
  {
    assert (rows + [r])[..|rows|] == rows;
  }

  lemma {:induction false} WalkStep(m: map<Str, Row>, cursor: Str, used: set<Str>)
    requires cursor in m && m[cursor].rowHash !in used
    ensures Walk(m, cursor, used) == [m[cursor]] + Walk(m, m[cursor].rowHash, used + {m[cursor].rowHash})
  {
  }

  method OrderByChainLinkage(rows: seq<Row>, genesis: Option<Str>) returns (out: seq<Row>)
    ensures out == Ordered(rows, genesis)
  {
    var sentinels := SortRows(Filter(rows, Legacy));
    var live := Filter(rows, NotSentinel);
    hide Filter, SortRows, Walk, Hashes, Unused, ByPrev;

    var byPrev: map<Str, Row> := map[];
    var producedHashes: set<Str> := {};
    NothingIndexed(live);
    for i := 0 to |live|
      invariant byPrev == ByPrev(live[..i])
      invariant producedHashes == Hashes(live[..i])
    {
      var r := live[i];
      assert live[..i + 1] == live[..i] + [r];
      IndexSnoc(live[..i], r);
      if r.prevHash !in byPrev { byPrev := byPrev[r.prevHash := r]; }
      producedHashes := producedHashes + {r.rowHash};
    }
    assert live[..|live|] == live;

    var start: Option<Str> := genesis;
    if genesis.None? || genesis.value !in byPrev {
      var heads := SortRows(Filter(live, PrevOutside(producedHashes)));
      start := if heads == [] then None else Some(heads[0].prevHash);
    }
    assert start == Start(live, genesis);

    var ordered: seq<Row> := [];
    var used: set<Str> := {};
    if start.Some? {
      var cursor := start.value;
      while cursor in byPrev && byPrev[cursor].rowHash !in used
        invariant used == Hashes(ordered)
        invariant ordered + Walk(byPrev, cursor, used) == Walk(byPrev, start.value, {})
        decreases |Unused(byPrev, used)|
      {
        var next := byPrev[cursor];
        WalkStep(byPrev, cursor, used);
        UnusedShrinks(byPrev, cursor, used);
        IndexSnoc(ordered, next);
        AppendOne(ordered, next, Walk(byPrev, next.rowHash, used + {next.rowHash}));
        ordered := ordered + [next];
        used := used + {next.rowHash};
        cursor := next.rowHash;
      }
      WalkEnd(byPrev, cursor, used);
    }
    assert ordered == Reached(live, genesis);
    var remainder := SortRows(Filter(live, HashOutside(used)));
    out := sentinels + ordered + remainder;
  }

  lemma NothingIndexed(rows: seq<Row>)
    ensures ByPrev(rows[..0]) == map[] && Hashes(rows[..0]) == {} && Hashes([]) == {}
  {
  }

  lemma WalkEnd(m: map<Str, Row>, cursor: Str, used: set<Str>)
    requires cursor !in m || m[cursor].rowHash in used
    ensures Walk(m, cursor, used) == []
  {
  }

  lemma AppendOne<T>(s: seq<T>, x: T, t: seq<T>)
    ensures s + ([x] + t) == s + [x] + t
  {
  }
}
