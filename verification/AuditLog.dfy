/**
 Writing the audit log, and reading it tenant by tenant.

 A log written by appending through the chain is accepted, however tenants
 interleave, and every accepted log without legacy rows was written that way.
 Tenants are verified apart; legacy rows never change the verdict.
 */
module AuditLog {
  import opened Options
  import opened JsText
  import opened AuditRow
  import opened AuditChain

  // The row that appending a body to a log writes.
  function NextRow(h: Sha256, rows: seq<Row>, body: Body): Row {
    var prev := Head(h, rows, body.tenantId);
    Row(body, prev, RowHash(h, prev, body))
  }

  function Written(h: Sha256, bodies: seq<Body>): (rows: seq<Row>)
    ensures |rows| == |bodies|
  {
    if bodies == [] then []
    else
      var rows := Written(h, bodies[..|bodies| - 1]);
      rows + [NextRow(h, rows, bodies[|bodies| - 1])]
  }

  // ---------- the in-memory store ----------

  const MAX_ENTRIES := 10_000

  function Newest<T>(s: seq<T>, n: nat): seq<T> {
    if |s| <= n then s else s[|s| - n..]
  }

  function AtLeastOne(n: int): nat {
    if n < 1 then 1 else n
  }

  // What the store still shows of a tenant after these appends.
  function Window(h: Sha256, bodies: seq<Body>, tenant: Str, limit: int): seq<Row> {
    Newest(Filter(Newest(Written(h, bodies), MAX_ENTRIES), OfTenant(tenant)), AtLeastOne(limit))
  }

  /** Of the tenant's rows among the newest 10000 the store shows the last ones, as many as asked for and at least one. */
  lemma WindowIsNewest(h: Sha256, bodies: seq<Body>, tenant: Str, limit: int)
    ensures (var all := Written(h, bodies);
             var kept := if |all| <= 10_000 then all else all[|all| - 10_000..];
             var rows, n := Filter(kept, OfTenant(tenant)), if limit < 1 then 1 else limit;
             Window(h, bodies, tenant, limit) == if |rows| <= n then rows else rows[|rows| - n..])
  {
    hide Written, Filter;
  }

  class AuditStore {
    const h: Sha256
    var buffer: seq<Row>
    var lastHashByTenant: map<Str, Str>
    ghost var bodies: seq<Body>  // everything ever appended

    ghost predicate Valid()
      reads this
    {
      HeadsAre(h, Written(h, bodies), lastHashByTenant) && buffer == Newest(Written(h, bodies), MAX_ENTRIES)
    }

    constructor (h: Sha256)
      ensures Valid() && bodies == [] && this.h == h
    {
      this.h := h;
      buffer, lastHashByTenant, bodies := [], map[], [];
    }

    method Append(body: Body) returns (entry: Row)
      requires Valid()
      modifies this
      ensures Valid() && bodies == old(bodies) + [body]
      ensures entry == NextRow(h, Written(h, old(bodies)), body)
    {
      hide HeadsAre, Written, Newest, NextRow, GenesisHash, RowHash;
      KnownHead(h, Written(h, bodies), body, lastHashByTenant);
      var prevHash :=
        if body.tenantId in lastHashByTenant then lastHashByTenant[body.tenantId]
        else GenesisHash(h, body.tenantId);
      entry := Row(body, prevHash, RowHash(h, prevHash, body));
      AppendStep(h, bodies, body, lastHashByTenant);
      lastHashByTenant := lastHashByTenant[body.tenantId := entry.rowHash];
      NewestSnoc(Written(h, bodies), entry, MAX_ENTRIES);
      buffer := buffer + [entry];
      if |buffer| > MAX_ENTRIES { buffer := buffer[1..]; }
      bodies := bodies + [body];
    }

    // The newest rows of one tenant, oldest first.
    method ReadChainOrdered(tenant: Str, limit: int) returns (rows: seq<Row>)
      requires Valid()
      ensures rows == Window(h, bodies, tenant, limit)
    {
      hide HeadsAre, Written;
      var tenantRows := [];
      for i := 0 to |buffer|
        invariant tenantRows == Filter(buffer[..i], OfTenant(tenant))
      {
        assert buffer[..i + 1] == buffer[..i] + [buffer[i]];
        FilterSnoc(buffer[..i], buffer[i], OfTenant(tenant));
        if buffer[i].body.tenantId == tenant { tenantRows := tenantRows + [buffer[i]]; }
      }
      assert buffer[..|buffer|] == buffer;
      rows := Newest(tenantRows, AtLeastOne(limit));
    }
  }

  // The row to write, from the remembered heads.
  lemma KnownHead(h: Sha256, rows: seq<Row>, body: Body, m: map<Str, Str>)
    requires HeadsAre(h, rows, m)
    ensures (var prev := if body.tenantId in m then m[body.tenantId] else GenesisHash(h, body.tenantId);
             NextRow(h, rows, body) == Row(body, prev, RowHash(h, prev, body)))
  {
    hide Head, GenesisHash, RowHash;
  }

  lemma NewestSnoc<T>(s: seq<T>, x: T, n: nat)
    ensures var b := Newest(s, n) + [x]; Newest(s + [x], n) == if |b| > n then b[1..] else b
  {
  }

  lemma AppendStep(h: Sha256, bodies: seq<Body>, body: Body, m: map<Str, Str>)
    requires HeadsAre(h, Written(h, bodies), m)
    ensures var entry := NextRow(h, Written(h, bodies), body);
      && Written(h, bodies + [body]) == Written(h, bodies) + [entry]
      && HeadsAre(h, Written(h, bodies + [body]), m[body.tenantId := entry.rowHash])
  {
    assert (bodies + [body])[..|bodies|] == bodies;
    WrittenIsAccepted(h, bodies);
    NextRowIsNoSentinel(h, Written(h, bodies), body);
    HeadsSnoc(h, Written(h, bodies), m, NextRow(h, Written(h, bodies), body));
  }

  lemma HeadIsDigest(h: Sha256, rows: seq<Row>, tenant: Str)
    requires Accepted(h, rows)
    ensures IsDigest(Head(h, rows, tenant))
  {
    var c := ChainOf(rows, tenant);
    assert TenantAccepted(h, rows, tenant);
    if c != [] { assert LinkOk(h, GenesisHash(h, tenant), c, |c| - 1); }
  }

  lemma NextRowIsNoSentinel(h: Sha256, rows: seq<Row>, body: Body)
    requires Accepted(h, rows)
    ensures !NextRow(h, rows, body).Sentinel()
  {
    HeadIsDigest(h, rows, body.tenantId);
    assert |PRE_CHAIN_SENTINEL| == 13;
  }

  lemma {:induction false} WrittenIsAccepted(h: Sha256, bodies: seq<Body>)
    ensures Accepted(h, Written(h, bodies))
    ensures forall r :: r in Written(h, bodies) ==> !r.Sentinel()
  {
    if bodies == [] {
      NothingAccepted(h);
    } else {
      var n := |bodies| - 1;
      var rows := Written(h, bodies[..n]);
      WrittenIsAccepted(h, bodies[..n]);
      NextRowIsNoSentinel(h, rows, bodies[n]);
      AcceptedSnoc(h, rows, NextRow(h, rows, bodies[n]));
    }
  }

  function Bodies(rows: seq<Row>): seq<Body> {
    seq(|rows|, i requires 0 <= i < |rows| => rows[i].body)
  }

  lemma {:induction false} AcceptedIsWritten(h: Sha256, rows: seq<Row>)
    requires Accepted(h, rows) && forall r :: r in rows ==> !r.Sentinel()
    ensures rows == Written(h, Bodies(rows))
  {
    if rows != [] {
      hide Accepted, NextRow, Check;
      var n := |rows| - 1;
      assert rows == rows[..n] + [rows[n]];
      AcceptedSnoc(h, rows[..n], rows[n]);
      CheckedIsNext(h, rows[..n], rows[n]);
      AcceptedIsWritten(h, rows[..n]);
      LastWritten(h, rows);
    }
  }

  lemma LastWritten(h: Sha256, rows: seq<Row>)
    requires rows != []
    requires (var n := |rows| - 1;
              rows[..n] == Written(h, Bodies(rows[..n])) && rows[n] == NextRow(h, rows[..n], rows[n].body))
    ensures rows == Written(h, Bodies(rows))
  {
    hide NextRow;
    var n := |rows| - 1;
    assert Bodies(rows)[..n] == Bodies(rows[..n]);
    assert rows == rows[..n] + [rows[n]];
  }

  lemma CheckedIsNext(h: Sha256, rows: seq<Row>, r: Row)
    requires !r.Sentinel() && Check(h, rows, r).None?
    ensures r == NextRow(h, rows, r.body)
  {
  }

  /** The verifier accepts exactly what the writer can have written. */
  lemma VerifierMeetsWriter(h: Sha256, rows: seq<Row>)
    requires forall r :: r in rows ==> !r.Sentinel()
    ensures Verify(h, rows).Intact? <==> exists bodies :: rows == Written(h, bodies)
  {
    VerdictSound(h, rows);
    if Verify(h, rows).Intact? {
      AcceptedIsWritten(h, rows);
    } else if exists bodies :: rows == Written(h, bodies) {
      var bodies :| rows == Written(h, bodies);
      WrittenIsAccepted(h, bodies);
    }
  }

  // ---------- tenants and legacy rows ----------

  lemma {:induction false} FilterFilter(rows: seq<Row>, p: Selector, q: Selector, both: Selector)
    requires forall r :: both.Picks(r) <==> p.Picks(r) && q.Picks(r)
    ensures Filter(Filter(rows, p), q) == Filter(rows, both)
  {
    if rows != [] {
      var n := |rows| - 1;
      FilterFilter(rows[..n], p, q, both);
      if p.Picks(rows[n]) { FilterSnoc(Filter(rows[..n], p), rows[n], q); }
      else { assert Filter(rows, p) == Filter(rows[..n], p); }
    }
  }

  lemma {:induction false} FilterNone(rows: seq<Row>, p: Selector, q: Selector)
    requires forall r :: !(p.Picks(r) && q.Picks(r))
    ensures Filter(Filter(rows, p), q) == []
  {
    if rows != [] {
      var n := |rows| - 1;
      FilterNone(rows[..n], p, q);
      if p.Picks(rows[n]) { FilterSnoc(Filter(rows[..n], p), rows[n], q); }
      else { assert Filter(rows, p) == Filter(rows[..n], p); }
    }
  }

  lemma OneTenantAccepted(h: Sha256, rows: seq<Row>, tenant: Str)
    ensures Accepted(h, Filter(rows, OfTenant(tenant))) <==> TenantAccepted(h, rows, tenant)
  {
    var mine := Filter(rows, OfTenant(tenant));
    forall t: Str
      ensures ChainOf(mine, t) == if t == tenant then ChainOf(rows, tenant) else []
    {
      if t == tenant { FilterFilter(rows, OfTenant(tenant), OnChain(tenant), OnChain(tenant)); }
      else { FilterNone(rows, OfTenant(tenant), OnChain(t)); }
    }
    if Accepted(h, mine) { assert TenantAccepted(h, mine, tenant); }
  }

  /** An interleaved log is accepted exactly when each tenant's own rows are. */
  lemma TenantsVerifiedApart(h: Sha256, rows: seq<Row>)
    ensures Verify(h, rows).Intact? <==> forall t: Str :: Verify(h, Filter(rows, OfTenant(t))).Intact?
  {
    VerdictSound(h, rows);
    forall t: Str
      ensures Verify(h, Filter(rows, OfTenant(t))).Intact? <==> TenantAccepted(h, rows, t)
    {
      OneTenantAccepted(h, rows, t);
      VerdictSound(h, Filter(rows, OfTenant(t)));
    }
  }

  /** Deleting the legacy rows never changes whether a log is accepted. */
  lemma SentinelsNeverMatter(h: Sha256, rows: seq<Row>)
    ensures Verify(h, rows).Intact? <==> Verify(h, Filter(rows, NotSentinel)).Intact?
  {
    var live := Filter(rows, NotSentinel);
    VerdictSound(h, rows);
    VerdictSound(h, live);
    forall t: Str
      ensures TenantAccepted(h, live, t) <==> TenantAccepted(h, rows, t)
    {
      FilterFilter(rows, NotSentinel, OnChain(t), OnChain(t));
    }
  }
}
