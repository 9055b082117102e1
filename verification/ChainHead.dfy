/**
 The database's writer: it finds a tenant's chain head without any order, as the
 row that no other row of the tenant was chained onto, and extends the chain from
 there. Whatever order the table is stored in, the log it writes stays accepted.
 */
module ChainHead {
  import opened Options
  import opened JsText
  import opened AuditRow
  import opened AuditChain
  import opened AuditLog
  import ChainRecovery
  import opened TamperEvidence

  // A row the head query returns: chained, and referenced by no row of its tenant.
  ghost predicate Unreferenced(table: seq<Row>, tenant: Str, r: Row) {
    && r in table && r.body.tenantId == tenant && !r.Sentinel()
    && forall b <- table :: b.body.tenantId == tenant ==> b.prevHash != r.rowHash
  }

  ghost predicate SameRows(table: seq<Row>, log: seq<Row>) {
    forall r :: r in table <==> r in log
  }

  lemma LinkedBefore(h: Sha256, start: Str, c: seq<Row>, i: nat)
    requires Linked(h, start, c) && 0 < i < |c|
    ensures c[i].prevHash == c[i - 1].rowHash
  {
    hide RowHash;
    assert LinkOk(h, start, c, i);
    assert c[..i][i - 1] == c[i - 1];
  }

  // Along a chain every row but the last is referenced by the one after it.
  lemma NextReferences(h: Sha256, log: seq<Row>, tenant: Str, i: nat)
    requires TenantAccepted(h, log, tenant) && i + 1 < |ChainOf(log, tenant)|
    ensures (var c := ChainOf(log, tenant);
             c[i + 1] in log && c[i + 1].body.tenantId == tenant && c[i + 1].prevHash == c[i].rowHash)
  {
    hide ChainOf, RowHash, GenesisHash;
    var c := ChainOf(log, tenant);
    LinkedBefore(h, GenesisHash(h, tenant), c, i + 1);
    ChainRecovery.InChain(log, tenant, c[i + 1]);
  }

  /** A row the query finds is the end of the tenant's chain. */
  lemma UnreferencedIsHead(h: Sha256, log: seq<Row>, tenant: Str, r: Row)
    requires Accepted(h, log) && Unreferenced(log, tenant, r)
    ensures r.rowHash == Head(h, log, tenant)
  {
    hide TenantAccepted, ChainOf;
    var c := ChainOf(log, tenant);
    ChainRecovery.InChain(log, tenant, r);
    assert TenantAccepted(h, log, tenant);
    var i :| 0 <= i < |c| && c[i] == r;
    if i + 1 < |c| {
      NextReferences(h, log, tenant, i);
    }
  }

  /** And it finds one as soon as there is a chain, or the log holds a collision. */
  lemma HeadIsUnreferenced(h: Sha256, log: seq<Row>, tenant: Str)
    requires Accepted(h, log) && ValidRows(log) && ChainOf(log, tenant) != []
    ensures (var c := ChainOf(log, tenant);
             Unreferenced(log, tenant, c[|c| - 1]) || Collision(h, Hashed(tenant, c)))
  {
    var c, start := ChainOf(log, tenant), GenesisHash(h, tenant);
    var last := c[|c| - 1];
    ChainRecovery.InChain(log, tenant, last);
    HeadIsDigest(h, log, tenant);
    VerdictSound(h, log);
    forall b | b in log && b.body.tenantId == tenant && b.prevHash == last.rowHash
      ensures Collision(h, Hashed(tenant, c))
    {
      assert |PRE_CHAIN_SENTINEL| == 13;
      ChainRecovery.InChain(log, tenant, b);
      var j :| 0 <= j < |c| && c[j] == b;
      assert TenantAccepted(h, log, tenant);
      assert LinkOk(h, start, c, j);
      assert c[..|c|] == c;
      ChainHashesDistinct(h, log, tenant, j, |c|);
    }
  }

  // ---------- the writer ----------

  lemma SameRowsSameHeads(table: seq<Row>, log: seq<Row>, tenant: Str, r: Row)
    requires SameRows(table, log)
    ensures Unreferenced(table, tenant, r) <==> Unreferenced(log, tenant, r)
  {
  }

  lemma HeadChoice(h: Sha256, table: seq<Row>, log: seq<Row>, tenant: Str, head: Option<Row>)
    requires SameRows(table, log) && ValidRows(log) && Accepted(h, log)
    requires head.Some? ==> Unreferenced(table, tenant, head.value)
    requires head.None? ==> forall r <- table :: !Unreferenced(table, tenant, r)
    ensures (if head.Some? then head.value.rowHash else GenesisHash(h, tenant)) == Head(h, log, tenant)
         || LogCollides(h, log)
  {
    hide Accepted, Unreferenced, Collision, Hashed, ChainOf;
    var c := ChainOf(log, tenant);
    match head
    case Some(r) =>
      SameRowsSameHeads(table, log, tenant, r);
      UnreferencedIsHead(h, log, tenant, r);
    case None =>
      if c != [] {
        HeadIsUnreferenced(h, log, tenant);
        SameRowsSameHeads(table, log, tenant, c[|c| - 1]);
        ChainRecovery.InChain(log, tenant, c[|c| - 1]);
      }
  }

  lemma CollisionStays(h: Sha256, log: seq<Row>, r: Row)
    requires LogCollides(h, log)
    ensures LogCollides(h, log + [r])
  {
    var t: Str :| Collision(h, Hashed(t, ChainOf(log, t)));
    var c, d := ChainOf(log, t), ChainOf(log + [r], t);
    ChainSnoc(log, r, t);
    assert Hashed(t, c) <= Hashed(t, d);
    var x, y :| x in Hashed(t, c) && y in Hashed(t, c) && x != y && h(x) == h(y);
    Collide(h, Hashed(t, d), x, y);
  }

  lemma Extended(h: Sha256, log: seq<Row>, body: Body)
    requires Accepted(h, log)
    ensures Verify(h, log + [NextRow(h, log, body)]).Intact?
  {
    NextRowIsNoSentinel(h, log, body);
    AcceptedSnoc(h, log, NextRow(h, log, body));
    VerdictSound(h, log + [NextRow(h, log, body)]);
  }

  lemma NextRowIs(h: Sha256, log: seq<Row>, body: Body)
    ensures (var prev := Head(h, log, body.tenantId); NextRow(h, log, body) == Row(body, prev, RowHash(h, prev, body)))
  {
  }

  lemma Stored(table: seq<Row>, log: seq<Row>, r: Row, at: nat)
    requires SameRows(table, log) && ValidRows(log) && ValidBody(r.body) && at <= |table|
    ensures SameRows(table[..at] + [r] + table[at..], log + [r]) && ValidRows(log + [r])
  {
  }

  class AuditTable {
    const h: Sha256
    var table: seq<Row>        // in whatever order rows are stored
    ghost var log: seq<Row>    // in the order they were written

    ghost predicate Valid()
      reads this
    {
      SameRows(table, log) && ValidRows(log) && (Verify(h, log).Intact? || LogCollides(h, log))
    }

    constructor (h: Sha256)
      ensures Valid() && log == [] && this.h == h
    {
      this.h := h;
      table, log := [], [];
      new;
      VerdictSound(h, []);
      NothingAccepted(h);
    }

    // Any row the head query may return; the first in storage order.
    method ReadChainHead(tenant: Str) returns (head: Option<Row>)
      ensures head.Some? ==> Unreferenced(table, tenant, head.value)
      ensures head.None? ==> forall r <- table :: !Unreferenced(table, tenant, r)
    {
      for i := 0 to |table|
        invariant forall k :: 0 <= k < i ==> !Unreferenced(table, tenant, table[k])
      {
        var a := table[i];
        if a.body.tenantId == tenant && !a.Sentinel() {
          var referenced := exists b <- table :: b.body.tenantId == tenant && b.prevHash == a.rowHash;
          if !referenced { return Some(a); }
        }
      }
      return None;
    }

    /** Extends the tenant's chain; the new row may be stored anywhere. */
    method Append(body: Body, at: nat) returns (entry: Row)
      requires Valid() && ValidBody(body) && at <= |table|
      modifies this
      ensures Valid() && log == old(log) + [entry] && table == old(table[..at]) + [entry] + old(table[at..])
      ensures entry == NextRow(h, old(log), body) || LogCollides(h, old(log))
    {
      var head := ReadChainHead(body.tenantId);
      var prevHash := if head.Some? then head.value.rowHash else GenesisHash(h, body.tenantId);
      entry := Row(body, prevHash, RowHash(h, prevHash, body));
      hide Verify, LogCollides, SameRows, Unreferenced, Accepted, NextRow, Head;
      VerdictSound(h, log);
      if LogCollides(h, log) {
        CollisionStays(h, log, entry);
      } else {
        HeadChoice(h, table, log, body.tenantId, head);
        assert entry == NextRow(h, log, body) by { NextRowIs(h, log, body); }
        Extended(h, log, body);
      }
      Stored(table, log, entry, at);
      table := table[..at] + [entry] + table[at..];
      log := log + [entry];
    }
  }
}
