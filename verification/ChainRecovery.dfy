/**
 What re-ordering by hash linkage guarantees: no row is lost, the result does
 not depend on the fetch order, a shuffled chain or window comes back in chain
 order, and verifying the result answers whether any order would verify.
 */
module ChainRecovery {
  import opened Options
  import opened JsText
  import opened AuditRow
  import opened AuditChain
  import opened ChainOrder

  // No two rows share a row hash (the store's unique index).
  ghost predicate UniqueHashes(m: multiset<Row>) {
    && (forall r :: r in m ==> m[r] == 1)
    && forall r, s :: r in m && s in m && r.rowHash == s.rowHash ==> r == s
  }

  // No two rows share an id (the primary key).
  ghost predicate UniqueIds(m: multiset<Row>) {
    forall r, s :: r in m && s in m && r.body.id == s.body.id ==> r == s
  }

  // No fork: no two rows extend the same hash.
  ghost predicate UniquePrevs(m: multiset<Row>) {
    forall r, s :: r in m && s in m && r.prevHash == s.prevHash ==> r == s
  }

  function Live(rows: seq<Row>): seq<Row> { Filter(rows, NotSentinel) }

  // Each row extends the one before it.
  predicate Chained(w: seq<Row>) {
    forall i :: 0 < i < |w| ==> w[i].prevHash == w[i - 1].rowHash
  }

  predicate NoRepeat(w: seq<Row>) {
    forall i, j :: 0 <= i < j < |w| ==> w[i].rowHash != w[j].rowHash
  }

  // ---------- counting ----------

  lemma {:induction false} FilterCounts(rows: seq<Row>, p: Selector, r: Row)
    ensures multiset(Filter(rows, p))[r] == if p.Picks(r) then multiset(rows)[r] else 0
  {
    if rows != [] {
      var n := |rows| - 1;
      assert rows == rows[..n] + [rows[n]];
      FilterCounts(rows[..n], p, r);
    }
  }

  lemma FilterPermutes(a: seq<Row>, b: seq<Row>, p: Selector)
    requires multiset(a) == multiset(b)
    ensures multiset(Filter(a, p)) == multiset(Filter(b, p))
  {
    forall r
      ensures multiset(Filter(a, p))[r] == multiset(Filter(b, p))[r]
    {
      FilterCounts(a, p, r);
      FilterCounts(b, p, r);
    }
  }

  lemma FilterIn(rows: seq<Row>, p: Selector, r: Row)
    ensures r in Filter(rows, p) <==> r in rows && p.Picks(r)
  {
    FilterCounts(rows, p, r);
    assert r in Filter(rows, p) <==> r in multiset(Filter(rows, p));
    assert r in rows <==> r in multiset(rows);
  }

  lemma InChain(rows: seq<Row>, tenant: Str, r: Row)
    ensures r in ChainOf(rows, tenant) <==> r in rows && !r.Sentinel() && r.body.tenantId == tenant
  {
    FilterIn(rows, OnChain(tenant), r);
  }

  lemma SplitCounts(rows: seq<Row>)
    ensures multiset(Filter(rows, Legacy)) + multiset(Live(rows)) == multiset(rows)
  {
    forall r
      ensures multiset(Filter(rows, Legacy))[r] + multiset(Live(rows))[r] == multiset(rows)[r]
    {
      FilterCounts(rows, Legacy, r);
      FilterCounts(rows, NotSentinel, r);
    }
  }

  lemma UniqueNoRepeat(s: seq<Row>)
    requires UniqueHashes(multiset(s))
    ensures NoRepeat(s)
  {
    forall i, j | 0 <= i < j < |s|
      ensures s[i].rowHash != s[j].rowHash
    {
      assert s == s[..j] + s[j..];
      assert multiset(s) == multiset(s[..j]) + multiset(s[j..]);
      assert s[i] in s[..j] && s[j] in s[j..];
      assert s[i] in s && s[j] in s;
    }
  }

  lemma {:induction false} NoRepeatCounts(s: seq<Row>, r: Row)
    requires NoRepeat(s)
    ensures multiset(s)[r] == if r in s then 1 else 0
  {
    if s != [] {
      var n := |s| - 1;
      assert s == s[..n] + [s[n]];
      NoRepeatCounts(s[..n], r);
    }
  }

  // ---------- the tie-break sort is a function of the rows, not of their order ----------

  predicate InOrder(s: seq<Row>) {
    forall i, j :: 0 <= i < j < |s| ==> !Before(s[j], s[i])
  }

  lemma BeforeIrreflexive(a: Row)
    ensures !Before(a, a)
  {
    LessIrreflexive(a.body.occurredAt);
    LessIrreflexive(a.body.id);
  }

  lemma BeforeTransitive(a: Row, b: Row, c: Row)
    requires Before(a, b) && Before(b, c)
    ensures Before(a, c)
  {
    if Less(a.body.occurredAt, b.body.occurredAt) && Less(b.body.occurredAt, c.body.occurredAt) {
      LessTransitive(a.body.occurredAt, b.body.occurredAt, c.body.occurredAt);
    } else if a.body.occurredAt == b.body.occurredAt == c.body.occurredAt {
      LessTransitive(a.body.id, b.body.id, c.body.id);
    }
  }

  lemma BeforeTotal(a: Row, b: Row)
    ensures Before(a, b) || Before(b, a) || a.body.id == b.body.id
  {
    LessTotal(a.body.occurredAt, b.body.occurredAt);
    LessTotal(a.body.id, b.body.id);
  }

  // Not after is transitive too.
  lemma NotAfter(a: Row, b: Row, c: Row)
    requires !Before(b, a) && !Before(c, b)
    ensures !Before(c, a)
  {
    if Before(c, a) {
      LessTotal(a.body.occurredAt, b.body.occurredAt);
      LessTotal(b.body.occurredAt, c.body.occurredAt);
      LessTotal(a.body.id, b.body.id);
      LessTotal(b.body.id, c.body.id);
      if Before(a, b) { BeforeTransitive(c, a, b); }
      else if Before(b, c) { BeforeTransitive(b, c, a); }
      else { BeforeIrreflexive(a); }
    }
  }

  lemma InsertedFrom(r: Row, s: seq<Row>, j: nat)
    requires j < |InsertRow(r, s)|
    ensures InsertRow(r, s)[j] == r || InsertRow(r, s)[j] in s
  {
    assert InsertRow(r, s)[j] in multiset(InsertRow(r, s));
  }

  lemma ConsInOrder(r: Row, s: seq<Row>)
    requires InOrder(s) && forall j :: 0 <= j < |s| ==> !Before(s[j], r)
    ensures InOrder([r] + s)
  {
    hide Before;
  }

  lemma {:induction false} InsertInOrder(r: Row, s: seq<Row>)
    requires InOrder(s)
    ensures InOrder(InsertRow(r, s))
  {
    hide Before, InOrder;
    if s == [] {
      OneInOrder(r);
    } else if Before(s[0], r) {
      var rest := InsertRow(r, s[1..]);
      InOrderRest(s);
      InsertInOrder(r, s[1..]);
      forall j | 0 <= j < |rest| ensures !Before(rest[j], s[0]) {
        InsertedFrom(r, s[1..], j);
        if Before(rest[j], s[0]) {
          BeforeTransitive(rest[j], s[0], r);
          BeforeIrreflexive(r);
        }
      }
      ConsInOrder(s[0], rest);
    } else {
      InOrderRest(s);
      forall j | 0 <= j < |s| ensures !Before(s[j], r) {
        if j > 0 { NotAfter(r, s[0], s[j]); }
      }
      ConsInOrder(r, s);
    }
  }

  lemma OneInOrder(r: Row)
    ensures InOrder([r])
  {
  }

  lemma InOrderRest(s: seq<Row>)
    requires InOrder(s) && s != []
    ensures InOrder(s[1..]) && forall p <- s[1..] :: !Before(p, s[0])
  {
    hide Before;
  }

  lemma {:induction false} SortInOrder(s: seq<Row>)
    ensures InOrder(SortRows(s))
  {
    if s != [] {
      SortInOrder(s[1..]);
      InsertInOrder(s[0], SortRows(s[1..]));
    }
  }

  lemma FirstUnique(s: seq<Row>, t: seq<Row>)
    requires InOrder(s) && InOrder(t) && s != [] && t != []
    requires multiset(s) == multiset(t) && UniqueIds(multiset(s))
    ensures s[0] == t[0]
  {
    assert s[0] in multiset(t) && t[0] in multiset(s);
    BeforeTotal(s[0], t[0]);
  }

  lemma TailCounts(s: seq<Row>)
    requires s != []
    ensures s == [s[0]] + s[1..]
    ensures multiset(s[1..]) == multiset(s) - multiset{s[0]} && |multiset(s)| == |s|
  {
  }

  lemma {:induction false} InOrderUnique(s: seq<Row>, t: seq<Row>)
    requires InOrder(s) && InOrder(t) && multiset(s) == multiset(t) && UniqueIds(multiset(s))
    ensures s == t
  {
    assert |s| == |multiset(s)| == |multiset(t)| == |t|;
    if s != [] {
      FirstUnique(s, t);
      TailCounts(s);
      TailCounts(t);
      FewerIds(multiset(s[1..]), multiset(s));
      InOrderUnique(s[1..], t[1..]);
    }
  }

  lemma FewerIds(m: multiset<Row>, n: multiset<Row>)
    requires m <= n && UniqueIds(n)
    ensures UniqueIds(m)
  {
  }

  lemma SortPermutes(a: seq<Row>, b: seq<Row>)
    requires multiset(a) == multiset(b) && UniqueIds(multiset(a))
    ensures SortRows(a) == SortRows(b)
  {
    SortInOrder(a);
    SortInOrder(b);
    InOrderUnique(SortRows(a), SortRows(b));
  }

  // ---------- the indexes ----------

  // The map sends each hash it knows to a row of the list that extends it.
  ghost predicate Indexes(m: map<Str, Row>, rows: seq<Row>) {
    && (forall k :: k in m ==> m[k] in rows && m[k].prevHash == k)
    && forall r :: r in rows ==> r.prevHash in m
  }

  lemma {:induction false} ByPrevIndexes(rows: seq<Row>)
    ensures Indexes(ByPrev(rows), rows)
  {
    if rows != [] {
      var n := |rows| - 1;
      ByPrevIndexes(rows[..n]);
      assert forall r :: r in rows <==> r in rows[..n] || r == rows[n] by {
        assert rows == rows[..n] + [rows[n]];
      }
    }
  }

  lemma {:induction false} Fresh(rows: seq<Row>, k: Str)
    requires forall j :: 0 <= j < |rows| ==> rows[j].prevHash != k
    ensures k !in ByPrev(rows)
  {
    if rows != [] { Fresh(rows[..|rows| - 1], k); }
  }

  lemma {:induction false} FirstWins(rows: seq<Row>, i: nat)
    requires i < |rows| && forall j :: 0 <= j < i ==> rows[j].prevHash != rows[i].prevHash
    ensures rows[i].prevHash in ByPrev(rows) && ByPrev(rows)[rows[i].prevHash] == rows[i]
  {
    var n := |rows| - 1;
    if i == n { Fresh(rows[..n], rows[n].prevHash); } else { FirstWins(rows[..n], i); }
  }

  lemma HashIn(rows: seq<Row>, r: Row)
    requires r in rows
    ensures r.rowHash in Hashes(rows)
  {
  }

  // ---------- the walk ----------

  // What the walk lists: rows of the index, each extending the last, no hash twice.
  lemma {:induction false} WalkFacts(m: map<Str, Row>, cursor: Str, used: set<Str>)
    requires forall k :: k in m ==> m[k].prevHash == k
    ensures var w := Walk(m, cursor, used);
      && Chained(w) && NoRepeat(w)
      && (w != [] ==> w[0].prevHash == cursor)
      && (forall i :: 0 <= i < |w| ==> w[i].prevHash in m && m[w[i].prevHash] == w[i] && w[i].rowHash !in used)
    decreases |Unused(m, used)|
  {
    if cursor in m && m[cursor].rowHash !in used {
      var next := m[cursor];
      UnusedShrinks(m, cursor, used);
      WalkStep(m, cursor, used);
      WalkFacts(m, next.rowHash, used + {next.rowHash});
      WalkCons(m, next, Walk(m, next.rowHash, used + {next.rowHash}), used);
    } else {
      WalkEnd(m, cursor, used);
    }
  }

  lemma WalkCons(m: map<Str, Row>, next: Row, rest: seq<Row>, used: set<Str>)
    requires Chained(rest) && NoRepeat(rest)
    requires rest != [] ==> rest[0].prevHash == next.rowHash
    requires forall i :: 0 <= i < |rest| ==> rest[i].rowHash !in used + {next.rowHash}
    ensures Chained([next] + rest) && NoRepeat([next] + rest)
  {
  }

  lemma HashIsNew(w: seq<Row>, k: nat)
    requires NoRepeat(w) && k < |w|
    ensures w[k].rowHash !in Hashes(w[..k])
  {
  }

  // From row k of a chain that the index knows, the walk runs along the chain.
  lemma {:induction false} WalkFollows(m: map<Str, Row>, w: seq<Row>, k: nat)
    requires Chained(w) && NoRepeat(w) && k < |w|
    requires forall i :: 0 <= i < |w| ==> w[i].prevHash in m && m[w[i].prevHash] == w[i]
    ensures Walk(m, w[k].prevHash, Hashes(w[..k])) == w[k..] + Walk(m, w[|w| - 1].rowHash, Hashes(w))
    decreases |w| - k
  {
    hide Walk, Hashes;
    HashIsNew(w, k);
    assert w[..k + 1] == w[..k] + [w[k]];
    IndexSnoc(w[..k], w[k]);
    WalkStep(m, w[k].prevHash, Hashes(w[..k]));
    if k + 1 < |w| {
      WalkFollows(m, w, k + 1);
      assert w[k..] == [w[k]] + w[k + 1..];
      AppendOne([], w[k], w[k + 1..] + Walk(m, w[|w| - 1].rowHash, Hashes(w)));
    } else {
      assert w[..k + 1] == w && w[k..] == [w[k]];
    }
  }

  lemma ReachedFacts(rows: seq<Row>, genesis: Option<Str>)
    ensures var w := Reached(rows, genesis);
      && Chained(w) && NoRepeat(w) && (forall r :: r in w ==> r in rows)
      && (forall i :: 0 <= i < |w| ==> w[i].prevHash in ByPrev(rows) && ByPrev(rows)[w[i].prevHash] == w[i])
      && (w != [] ==> Start(rows, genesis) == Some(w[0].prevHash))
  {
    ByPrevIndexes(rows);
    if Start(rows, genesis).Some? { WalkFacts(ByPrev(rows), Start(rows, genesis).value, {}); }
  }

  // ---------- no row is lost ----------

  lemma WalkAndRest(rows: seq<Row>, w: seq<Row>)
    requires UniqueHashes(multiset(rows)) && NoRepeat(w) && forall r :: r in w ==> r in rows
    ensures multiset(w) + multiset(Filter(rows, HashOutside(Hashes(w)))) == multiset(rows)
  {
    forall r
      ensures multiset(w)[r] + multiset(Filter(rows, HashOutside(Hashes(w))))[r] == multiset(rows)[r]
    {
      FilterCounts(rows, HashOutside(Hashes(w)), r);
      NoRepeatCounts(w, r);
      assert r in rows <==> r in multiset(rows);
      if r.rowHash in Hashes(w) {
        var s :| s in w && s.rowHash == r.rowHash;
        assert s in multiset(rows);
      }
    }
  }

  /** Re-ordering keeps every row, once. */
  lemma OrderingKeepsRows(rows: seq<Row>, genesis: Option<Str>)
    requires UniqueHashes(multiset(Live(rows)))
    ensures multiset(Ordered(rows, genesis)) == multiset(rows)
  {
    var live := Live(rows);
    ReachedFacts(live, genesis);
    WalkAndRest(live, Reached(live, genesis));
    SplitCounts(rows);
  }

  // ---------- the result is a function of the rows ----------

  lemma SameMembers(a: seq<Row>, b: seq<Row>)
    requires multiset(a) == multiset(b)
    ensures forall r :: r in a <==> r in b
    ensures Hashes(a) == Hashes(b)
  {
    assert forall r :: r in a <==> r in multiset(a);
    assert forall r :: r in b <==> r in multiset(b);
    assert forall r :: r in a <==> r in b;
  }

  lemma KeysPermute(a: seq<Row>, b: seq<Row>)
    requires multiset(a) == multiset(b)
    ensures ByPrev(a).Keys == ByPrev(b).Keys
  {
    ByPrevIndexes(a);
    ByPrevIndexes(b);
    SameMembers(a, b);
    forall k
      ensures k in ByPrev(a) <==> k in ByPrev(b)
    {
      if k in ByPrev(a) { assert ByPrev(a)[k] in b; }
      if k in ByPrev(b) { assert ByPrev(b)[k] in a; }
    }
  }

  // Which hash the walk starts from does not depend on the fetch order.
  lemma StartPermutes(a: seq<Row>, b: seq<Row>, genesis: Option<Str>)
    requires multiset(a) == multiset(b) && UniqueIds(multiset(a))
    ensures Start(a, genesis) == Start(b, genesis)
    ensures ByPrev(a).Keys == ByPrev(b).Keys
  {
    hide ByPrev, Filter, SortRows, Hashes, UniqueIds;
    KeysPermute(a, b);
    SameMembers(a, b);
    SortedFilterPermutes(a, b, PrevOutside(Hashes(a)));
  }

  lemma FilterFewer(rows: seq<Row>, p: Selector)
    ensures multiset(Filter(rows, p)) <= multiset(rows)
  {
    forall r
      ensures multiset(Filter(rows, p))[r] <= multiset(rows)[r]
    {
      FilterCounts(rows, p, r);
    }
  }

  lemma ByPrevPermutes(a: seq<Row>, b: seq<Row>)
    requires multiset(a) == multiset(b) && UniquePrevs(multiset(a))
    ensures ByPrev(a) == ByPrev(b)
  {
    ByPrevIndexes(a);
    ByPrevIndexes(b);
    SameMembers(a, b);
    forall k | k in ByPrev(a)
      ensures k in ByPrev(b) && ByPrev(a)[k] == ByPrev(b)[k]
    {
      var r := ByPrev(a)[k];
      assert r in b && r.prevHash in ByPrev(b);
      assert ByPrev(b)[k] in multiset(a) && r in multiset(a);
    }
    forall k | k in ByPrev(b)
      ensures k in ByPrev(a)
    {
      assert ByPrev(b)[k] in a;
    }
  }

  lemma SortedFilterPermutes(a: seq<Row>, b: seq<Row>, p: Selector)
    requires multiset(a) == multiset(b) && UniqueIds(multiset(a))
    ensures SortRows(Filter(a, p)) == SortRows(Filter(b, p))
  {
    FilterPermutes(a, b, p);
    FilterFewer(a, p);
    FewerIds(multiset(Filter(a, p)), multiset(a));
    SortPermutes(Filter(a, p), Filter(b, p));
  }

  /** Without a fork, every fetch order gives the same result. */
  lemma OrderingIgnoresFetchOrder(a: seq<Row>, b: seq<Row>, genesis: Option<Str>)
    requires multiset(a) == multiset(b) && UniqueIds(multiset(a))
    requires UniquePrevs(multiset(Live(a)))
    ensures Ordered(a, genesis) == Ordered(b, genesis)
  {
    var p, q := Live(a), Live(b);
    FilterPermutes(a, b, NotSentinel);
    FilterFewer(a, NotSentinel);
    FewerIds(multiset(p), multiset(a));
    StartPermutes(p, q, genesis);
    ByPrevPermutes(p, q);
    assert Reached(p, genesis) == Reached(q, genesis);
    SortedFilterPermutes(a, b, Legacy);
    SortedFilterPermutes(p, q, HashOutside(Hashes(Reached(p, genesis))));
  }

  // ---------- a chain comes back ----------

  lemma {:induction false} FilterAll(rows: seq<Row>, p: Selector)
    requires forall r :: r in rows ==> p.Picks(r)
    ensures Filter(rows, p) == rows
  {
    if rows != [] {
      var n := |rows| - 1;
      assert rows == rows[..n] + [rows[n]];
      FilterAll(rows[..n], p);
    }
  }

  lemma {:induction false} FilterNothing(rows: seq<Row>, p: Selector)
    requires forall r :: r in rows ==> !p.Picks(r)
    ensures Filter(rows, p) == []
  {
    if rows != [] { FilterNothing(rows[..|rows| - 1], p); }
  }

  // A chain that starts outside itself.
  ghost predicate Open(w: seq<Row>) {
    Chained(w) && NoRepeat(w) && (w != [] ==> w[0].prevHash !in Hashes(w))
  }

  lemma PrevOnChain(w: seq<Row>, i: nat)
    requires Open(w) && i < |w|
    ensures w[i].prevHash in Hashes(w) <==> i > 0
    ensures w[i].prevHash != w[|w| - 1].rowHash
  {
    HashIn(w, w[|w| - 1]);
    if i > 0 {
      assert w[i].prevHash == w[i - 1].rowHash;
      HashIn(w, w[i - 1]);
    }
  }

  // No two rows of it extend the same hash.
  lemma PrevsDiffer(w: seq<Row>, i: nat, j: nat)
    requires Open(w) && i < j < |w|
    ensures w[i].prevHash != w[j].prevHash
  {
    PrevOnChain(w, i);
    PrevOnChain(w, j);
    if i > 0 { assert w[i].prevHash == w[i - 1].rowHash && w[j].prevHash == w[j - 1].rowHash; }
  }

  lemma SamePrevSameRow(w: seq<Row>, i: nat, r: Row)
    requires Open(w) && i < |w| && r in w && r.prevHash == w[i].prevHash
    ensures r == w[i]
  {
    var j :| 0 <= j < |w| && w[j] == r;
    if i < j { PrevsDiffer(w, i, j); }
    if j < i { PrevsDiffer(w, j, i); }
  }

  lemma IndexOfChain(live: seq<Row>, w: seq<Row>)
    requires multiset(live) == multiset(w)
    requires Open(w) && w != []
    ensures forall i :: 0 <= i < |w| ==> w[i].prevHash in ByPrev(live) && ByPrev(live)[w[i].prevHash] == w[i]
    ensures w[|w| - 1].rowHash !in ByPrev(live)
  {
    ByPrevIndexes(live);
    SameMembers(live, w);
    forall i | 0 <= i < |w|
      ensures w[i].prevHash in ByPrev(live) && ByPrev(live)[w[i].prevHash] == w[i]
    {
      assert w[i] in live;
      SamePrevSameRow(w, i, ByPrev(live)[w[i].prevHash]);
    }
    var last := w[|w| - 1].rowHash;
    if last in ByPrev(live) {
      var r := ByPrev(live)[last];
      assert r in w;
      var j :| 0 <= j < |w| && w[j] == r;
      PrevOnChain(w, j);
    }
  }

  lemma StartOfChain(live: seq<Row>, w: seq<Row>, genesis: Option<Str>)
    requires multiset(live) == multiset(w)
    requires Open(w) && w != []
    requires genesis.Some? ==> genesis.value !in Hashes(w)
    ensures Start(live, genesis) == Some(w[0].prevHash)
  {
    ByPrevIndexes(live);
    SameMembers(live, w);
    if genesis.Some? && genesis.value in ByPrev(live) {
      var r := ByPrev(live)[genesis.value];
      var i :| 0 <= i < |w| && w[i] == r;
      PrevOnChain(w, i);
    } else {
      OneHead(live, w);
      SingleSort(Filter(live, PrevOutside(Hashes(live))), w[0]);
    }
  }

  lemma OneHead(live: seq<Row>, w: seq<Row>)
    requires multiset(live) == multiset(w) && Hashes(live) == Hashes(w)
    requires Open(w) && w != []
    ensures multiset(Filter(live, PrevOutside(Hashes(live)))) == multiset([w[0]])
  {
    var p := PrevOutside(Hashes(live));
    forall r
      ensures multiset(Filter(live, p))[r] == multiset([w[0]])[r]
    {
      FilterCounts(live, p, r);
      NoRepeatCounts(w, r);
      PrevOnChain(w, 0);
      if r in w {
        var i :| 0 <= i < |w| && w[i] == r;
        PrevOnChain(w, i);
      }
    }
  }

  lemma SingleSort(s: seq<Row>, r: Row)
    requires multiset(s) == multiset([r])
    ensures SortRows(s) == [r]
  {
  }

  /**
   A chain, or a window cut out of one, comes back in chain order from any
   fetch order, legacy rows first. The anchor may be missing, or be given.
   */
  lemma ChainRecovered(rows: seq<Row>, w: seq<Row>, genesis: Option<Str>)
    requires multiset(Live(rows)) == multiset(w) && Open(w)
    requires genesis.Some? ==> genesis.value !in Hashes(w)
    ensures Ordered(rows, genesis) == SortRows(Filter(rows, Legacy)) + w
  {
    var live := Live(rows);
    if w == [] {
      assert |live| == |multiset(live)| == 0;
    } else {
      ChainReached(live, w, genesis);
      AllReached(live, w);
      assert SortRows(Filter(live, HashOutside(Hashes(w)))) == [];
    }
  }

  lemma ChainReached(live: seq<Row>, w: seq<Row>, genesis: Option<Str>)
    requires multiset(live) == multiset(w) && Open(w) && w != []
    requires genesis.Some? ==> genesis.value !in Hashes(w)
    ensures Reached(live, genesis) == w
  {
    StartOfChain(live, w, genesis);
    IndexOfChain(live, w);
    WholeWalk(ByPrev(live), w);
    WalkEnd(ByPrev(live), w[|w| - 1].rowHash, Hashes(w));
  }

  lemma AllReached(live: seq<Row>, w: seq<Row>)
    requires multiset(live) == multiset(w)
    ensures Filter(live, HashOutside(Hashes(w))) == []
  {
    SameMembers(live, w);
    forall r | r in live
      ensures !HashOutside(Hashes(w)).Picks(r)
    {
      HashIn(w, r);
    }
    FilterNothing(live, HashOutside(Hashes(w)));
  }

  // ---------- ordering, then verifying ----------

  lemma {:induction false} SingleTenantChain(rows: seq<Row>, tenant: Str, t: Str)
    requires forall r :: r in Live(rows) ==> r.body.tenantId == tenant
    ensures ChainOf(rows, t) == if t == tenant then Live(rows) else []
  {
    if rows != [] {
      var n := |rows| - 1;
      SnocMember(Live(rows[..n]), rows[n]);
      assert rows[n].Sentinel() || rows[n].body.tenantId == tenant;
      SingleTenantChain(rows[..n], tenant, t);
    }
  }

  lemma SnocMember(s: seq<Row>, r: Row)
    ensures r in s + [r] && forall x :: x in s ==> x in s + [r]
  {
  }

  lemma OnlyTenant(h: Sha256, rows: seq<Row>, tenant: Str)
    requires forall r :: r in Live(rows) ==> r.body.tenantId == tenant
    ensures Verify(h, rows).Intact? <==> Linked(h, GenesisHash(h, tenant), Live(rows))
  {
    VerdictSound(h, rows);
    forall t: Str
      ensures TenantAccepted(h, rows, t) <==> (t == tenant ==> Linked(h, GenesisHash(h, tenant), Live(rows)))
    {
      SingleTenantChain(rows, tenant, t);
      NothingLinked(h, GenesisHash(h, t));
    }
    if Accepted(h, rows) { assert TenantAccepted(h, rows, tenant); }
  }

  lemma NothingLinked(h: Sha256, start: Str)
    ensures Linked(h, start, [])
  {
  }

  lemma LinkedChained(h: Sha256, start: Str, c: seq<Row>)
    requires Linked(h, start, c)
    ensures Chained(c) && (c != [] ==> c[0].prevHash == start)
  {
    hide LinkOk;
    forall i | 0 <= i < |c|
      ensures c[i].prevHash == if i == 0 then start else c[i - 1].rowHash
    {
      LinkedTo(h, start, c, i);
    }
    if c != [] { LinkedTo(h, start, c, 0); }
  }

  lemma LinkedTo(h: Sha256, start: Str, c: seq<Row>, i: nat)
    requires i < |c| && LinkOk(h, start, c, i)
    ensures c[i].prevHash == if i == 0 then start else c[i - 1].rowHash
  {
    hide RowHash;
    assert i == 0 ==> c[..i] == [];
  }

  lemma LegacyThenChain(rows: seq<Row>, w: seq<Row>)
    requires forall r :: r in w ==> !r.Sentinel()
    ensures Live(SortRows(Filter(rows, Legacy)) + w) == w
  {
    var s := SortRows(Filter(rows, Legacy));
    LegacySorted(rows);
    FilterNothing(s, NotSentinel);
    FilterAppend(s, w, NotSentinel);
    FilterAll(w, NotSentinel);
  }

  lemma {:induction false} FilterAppend(a: seq<Row>, b: seq<Row>, p: Selector)
    ensures Filter(a + b, p) == Filter(a, p) + Filter(b, p)
  {
    if b == [] {
      assert a + b == a;
    } else {
      var n := |b| - 1;
      assert a + b == (a + b[..n]) + [b[n]];
      assert b == b[..n] + [b[n]];
      FilterAppend(a, b[..n], p);
      FilterSnoc(a + b[..n], b[n], p);
      FilterSnoc(b[..n], b[n], p);
    }
  }

  lemma MembersOfLive(rows: seq<Row>, p: seq<Row>)
    requires multiset(p) == multiset(rows)
    ensures multiset(Live(p)) == multiset(Live(rows)) && forall r :: r in Live(p) <==> r in Live(rows)
  {
    FilterPermutes(p, rows, NotSentinel);
    SameMembers(Live(p), Live(rows));
  }

  // If some order of the rows verifies, the recovered order does.
  lemma AcceptedOrderFound(h: Sha256, rows: seq<Row>, p: seq<Row>, tenant: Str)
    requires forall r :: r in Live(rows) ==> r.body.tenantId == tenant
    requires UniqueHashes(multiset(Live(rows)))
    requires GenesisHash(h, tenant) !in Hashes(Live(rows))
    requires multiset(p) == multiset(rows) && Verify(h, p).Intact?
    ensures Verify(h, Ordered(rows, Some(GenesisHash(h, tenant)))).Intact?
  {
    hide Verify, Filter, Ordered, Linked;
    var genesis, w := GenesisHash(h, tenant), Live(p);
    MembersOfLive(rows, p);
    OnlyTenant(h, p, tenant);
    LinkedChained(h, genesis, w);
    UniqueNoRepeat(w);
    SameMembers(w, Live(rows));
    ChainRecovered(rows, w, Some(genesis));
    LiveIsLive(p);
    LegacyThenChain(rows, w);
    OnlyTenant(h, Ordered(rows, Some(genesis)), tenant);
  }

  lemma LiveIsLive(rows: seq<Row>)
    ensures forall r :: r in Live(rows) ==> !r.Sentinel()
  {
    forall r | r in Live(rows)
      ensures !r.Sentinel()
    {
      FilterIn(rows, NotSentinel, r);
    }
  }

  /**
   Verifying the re-ordered rows of one tenant answers whether any order of
   those rows would verify: no false break on an intact chain, no break hidden.
   */
  lemma OrderingIsFaithful(h: Sha256, rows: seq<Row>, tenant: Str)
    requires forall r :: r in Live(rows) ==> r.body.tenantId == tenant
    requires UniqueHashes(multiset(Live(rows)))
    requires GenesisHash(h, tenant) !in Hashes(Live(rows))
    ensures Verify(h, Ordered(rows, Some(GenesisHash(h, tenant)))).Intact?
       <==> exists p: seq<Row> :: multiset(p) == multiset(rows) && Verify(h, p).Intact?
  {
    OrderingKeepsRows(rows, Some(GenesisHash(h, tenant)));
    if p: seq<Row> :| multiset(p) == multiset(rows) && Verify(h, p).Intact? {
      AcceptedOrderFound(h, rows, p, tenant);
    }
  }

  // ---------- ordering twice ----------

  // The walk over rows that start with an earlier walk retraces it.
  lemma Retrace(live: seq<Row>, again: seq<Row>, rest: seq<Row>, genesis: Option<Str>)
    requires UniqueHashes(multiset(live)) && UniqueIds(multiset(live)) && multiset(again) == multiset(live)
    requires again == Reached(live, genesis) + rest
    ensures Reached(again, genesis) == Reached(live, genesis)
  {
    var w := Reached(live, genesis);
    StartPermutes(live, again, genesis);
    ReachedFacts(live, genesis);
    if w == [] {
      if Start(live, genesis).Some? { WalkEnd(ByPrev(again), Start(live, genesis).value, {}); }
    } else {
      hide ByPrev, Walk, Hashes, Start;
      RetraceIndex(live, w, rest);
      WholeWalk(ByPrev(live), w);
      WholeWalk(ByPrev(again), w);
      ByPrevIndexes(live);
      NoMore(w, Walk(ByPrev(live), w[|w| - 1].rowHash, Hashes(w)));
      DeadEnd(live, w, ByPrev(live), ByPrev(again), w[|w| - 1].rowHash);
    }
  }

  lemma NoMore(w: seq<Row>, more: seq<Row>)
    requires w == w + more
    ensures more == []
  {
  }

  lemma RetraceIndex(live: seq<Row>, w: seq<Row>, rest: seq<Row>)
    requires NoRepeat(w)
    requires forall i :: 0 <= i < |w| ==> w[i].prevHash in ByPrev(live) && ByPrev(live)[w[i].prevHash] == w[i]
    ensures forall i :: 0 <= i < |w| ==> w[i].prevHash in ByPrev(w + rest) && ByPrev(w + rest)[w[i].prevHash] == w[i]
  {
    hide ByPrev;
    forall i | 0 <= i < |w|
      ensures w[i].prevHash in ByPrev(w + rest) && ByPrev(w + rest)[w[i].prevHash] == w[i]
    {
      assert forall j :: 0 <= j < i ==> w[j].rowHash != w[i].rowHash;
      FirstWins(w + rest, i);
    }
  }

  lemma WholeWalk(m: map<Str, Row>, w: seq<Row>)
    requires Chained(w) && NoRepeat(w) && w != []
    requires forall i :: 0 <= i < |w| ==> w[i].prevHash in m && m[w[i].prevHash] == w[i]
    ensures Walk(m, w[0].prevHash, {}) == w + Walk(m, w[|w| - 1].rowHash, Hashes(w))
  {
    NothingIndexed(w);
    assert w[..0] == [] && w[0..] == w;
    WalkFollows(m, w, 0);
  }

  lemma DeadEnd(live: seq<Row>, w: seq<Row>, m: map<Str, Row>, m': map<Str, Row>, last: Str)
    requires UniqueHashes(multiset(live)) && Indexes(m, live) && m.Keys == m'.Keys
    requires forall r :: r in w ==> r in live
    requires forall i :: 0 <= i < |w| ==> w[i].prevHash in m' && m'[w[i].prevHash] == w[i]
    requires Walk(m, last, Hashes(w)) == []
    ensures Walk(m', last, Hashes(w)) == []
  {
    if last in m {
      var r := m[last];
      if r.rowHash !in Hashes(w) { WalkStep(m, last, Hashes(w)); }
      var s :| s in w && s.rowHash == r.rowHash;
      assert r in multiset(live) && s in multiset(live);
      HashIn(w, s);
    }
    WalkEnd(m', last, Hashes(w));
  }

  lemma LegacyAgain(rows: seq<Row>, tail: seq<Row>)
    requires UniqueIds(multiset(rows)) && forall r :: r in tail ==> !r.Sentinel()
    ensures SortRows(Filter(SortRows(Filter(rows, Legacy)) + tail, Legacy)) == SortRows(Filter(rows, Legacy))
  {
    var was := Filter(rows, Legacy);
    LegacyKept(rows, tail);
    FilterFewer(rows, Legacy);
    FewerIds(multiset(was), multiset(rows));
    SortPermutes(was, SortRows(was));
  }

  lemma LegacyKept(rows: seq<Row>, tail: seq<Row>)
    requires forall r :: r in tail ==> !r.Sentinel()
    ensures Filter(SortRows(Filter(rows, Legacy)) + tail, Legacy) == SortRows(Filter(rows, Legacy))
  {
    var s := SortRows(Filter(rows, Legacy));
    LegacySorted(rows);
    FilterAppend(s, tail, Legacy);
    FilterAll(s, Legacy);
    FilterNothing(tail, Legacy);
  }

  lemma LegacySorted(rows: seq<Row>)
    ensures forall r :: r in SortRows(Filter(rows, Legacy)) ==> r.Sentinel()
  {
    SameMembers(SortRows(Filter(rows, Legacy)), Filter(rows, Legacy));
    forall r | r in Filter(rows, Legacy)
      ensures r.Sentinel()
    {
      FilterIn(rows, Legacy, r);
    }
  }

  /** Re-ordering twice is re-ordering once. */
  lemma OrderingIdempotent(rows: seq<Row>, genesis: Option<Str>)
    requires UniqueHashes(multiset(Live(rows))) && UniqueIds(multiset(rows))
    ensures Ordered(Ordered(rows, genesis), genesis) == Ordered(rows, genesis)
  {
    hide Filter, SortRows, Reached, Hashes;
    var live := Live(rows);
    var w := Reached(live, genesis);
    var rest := SortRows(Filter(live, HashOutside(Hashes(w))));
    FilterFewer(rows, NotSentinel);
    FewerIds(multiset(live), multiset(rows));
    LiveOrdered(rows, genesis);
    LegacyThenChain(rows, w + rest);
    LegacyAgain(rows, w + rest);
    Retrace(live, w + rest, rest, genesis);
    SortedFilterPermutes(live, w + rest, HashOutside(Hashes(w)));
    assert Ordered(rows, genesis) == SortRows(Filter(rows, Legacy)) + (w + rest);
  }

  lemma LiveOrdered(rows: seq<Row>, genesis: Option<Str>)
    requires UniqueHashes(multiset(Live(rows)))
    ensures var live := Live(rows);
            var w := Reached(live, genesis);
            var out := w + SortRows(Filter(live, HashOutside(Hashes(w))));
            multiset(out) == multiset(live) && forall r :: r in out ==> !r.Sentinel()
  {
    hide Filter, SortRows, Reached, Hashes;
    var live := Live(rows);
    var w := Reached(live, genesis);
    var out := w + SortRows(Filter(live, HashOutside(Hashes(w))));
    ReachedFacts(live, genesis);
    WalkAndRest(live, w);
    SameMembers(out, live);
    forall r | r in live
      ensures !r.Sentinel()
    {
      FilterIn(rows, NotSentinel, r);
    }
  }

  // ---------- why distinct hashes are needed ----------

  /**
   A forged row that copies the hash of a genuine first row is dropped by the
   re-ordering, so the re-ordered log verifies although no order of the rows does.
   */
  lemma DuplicateHashHidesBreak(h: Sha256, a: Row, b: Row)
    requires a.prevHash == GenesisHash(h, a.body.tenantId) && a.rowHash == RowHash(h, a.prevHash, a.body)
    requires b.body.tenantId == a.body.tenantId && b.rowHash == a.rowHash && !b.Sentinel()
    requires b.prevHash != a.prevHash && b.prevHash != a.rowHash
    ensures Verify(h, Ordered([a, b], Some(a.prevHash))).Intact?
    ensures Verify(h, [a, b]).Broken? && Verify(h, [b, a]).Broken?
  {
    hide Verify, Linked, Filter, Ordered, RowHash;
    GenuineLinked(h, a);
    OnlyGenuineRow(a, b);
    OnlyTenant(h, [a], a.body.tenantId);
    FilterAll([a, b], NotSentinel);
    FilterAll([b, a], NotSentinel);
    OnlyTenant(h, [a, b], a.body.tenantId);
    OnlyTenant(h, [b, a], a.body.tenantId);
    ForgedNowhere(h, a, b);
  }

  lemma OnlyGenuineRow(a: Row, b: Row)
    requires IsDigest(a.prevHash) && b.rowHash == a.rowHash && !b.Sentinel()
    requires b.prevHash != a.prevHash && b.prevHash != a.rowHash
    ensures !a.Sentinel() && Live([a]) == [a] && Ordered([a, b], Some(a.prevHash)) == [a]
  {
    hide Filter, Reached;
    assert |PRE_CHAIN_SENTINEL| == 13;
    FilterAll([a], NotSentinel);
    FilterAll([a, b], NotSentinel);
    FilterNothing([a, b], Legacy);
    OnlyGenuineReached(a, b);
    AllHashesUsed([a, b], [a]);
    hide Hashes;
    assert SortRows([]) == [];
    assert Live([a, b]) == [a, b];
  }

  lemma OnlyGenuineReached(a: Row, b: Row)
    requires b.prevHash != a.prevHash && b.prevHash != a.rowHash
    ensures Reached([a, b], Some(a.prevHash)) == [a]
  {
    var m := ByPrev([a, b]);
    assert [a, b] == [] + [a] + [b];
    IndexSnoc([], a);
    IndexSnoc([] + [a], b);
    WalkStep(m, a.prevHash, {});
    WalkEnd(m, a.rowHash, {} + {a.rowHash});
  }

  lemma AllHashesUsed(rows: seq<Row>, w: seq<Row>)
    requires Hashes(rows) <= Hashes(w)
    ensures Filter(rows, HashOutside(Hashes(w))) == []
  {
  }

  // In no order of the two rows does the forged one extend what comes before it.
  lemma ForgedNowhere(h: Sha256, a: Row, b: Row)
    requires b.prevHash != a.prevHash && b.prevHash != a.rowHash
    ensures !Linked(h, a.prevHash, [a, b]) && !Linked(h, a.prevHash, [b, a])
  {
    assert [a, b][..1] == [a] && [b, a][..0] == [];
    assert !LinkOk(h, a.prevHash, [a, b], 1) && !LinkOk(h, a.prevHash, [b, a], 0);
  }

  lemma GenuineLinked(h: Sha256, a: Row)
    requires a.rowHash == RowHash(h, a.prevHash, a.body)
    ensures Linked(h, a.prevHash, [a])
  {
    assert [a][..0] == [];
  }
}
