/**
 What verifying the re-ordered rows of one tenant decides: with distinct row
 hashes it succeeds exactly when some order of the rows verifies, and rows in
 which a hash repeats verify in no order. Short of a hash collision, checking
 the hashes and verifying the recovered order is a complete test.
 */
module OrderVerdict {
  import opened Options
  import opened JsText
  import opened AuditRow
  import opened AuditChain
  import opened TamperEvidence
  import opened ChainOrder
  import opened ChainRecovery

  ghost predicate SomeOrderVerifies(h: Sha256, rows: seq<Row>) {
    exists p: seq<Row> :: multiset(p) == multiset(rows) && Verify(h, p).Intact?
  }

  // A repeated hash on an accepted chain, or the genesis hash on it, is a collision.
  lemma AcceptedChainIsFresh(h: Sha256, p: seq<Row>, tenant: Str)
    requires ValidRows(p) && Verify(h, p).Intact?
    ensures (var c := ChainOf(p, tenant);
             (NoRepeat(c) && forall r :: r in c ==> r.rowHash != GenesisHash(h, tenant))
             || Collision(h, Hashed(tenant, c)))
  {
    hide Verify, ChainOf, Hashed, Collision, GenesisHash, ValidRows;
    var c, start := ChainOf(p, tenant), GenesisHash(h, tenant);
    forall i, j | 0 <= i < j < |c|
      ensures c[i].rowHash != c[j].rowHash || Collision(h, Hashed(tenant, c))
    {
      ChainHashesDistinct(h, p, tenant, i + 1, j + 1);
    }
    forall i | 0 <= i < |c|
      ensures c[i].rowHash != start || Collision(h, Hashed(tenant, c))
    {
      ChainHashesDistinct(h, p, tenant, 0, i + 1);
    }
  }

  lemma FreshIsUnique(c: seq<Row>, live: seq<Row>)
    requires NoRepeat(c) && multiset(c) == multiset(live)
    ensures UniqueHashes(multiset(live))
  {
    forall r | r in multiset(live) ensures multiset(live)[r] == 1 && r in c {
      NoRepeatCounts(c, r);
    }
  }

  // If some order verifies, the hashes are distinct and fresh, or collide.
  lemma VerifiableRowsAreFresh(h: Sha256, rows: seq<Row>, p: seq<Row>, tenant: Str)
    requires ValidRows(rows) && forall r :: r in Live(rows) ==> r.body.tenantId == tenant
    requires multiset(p) == multiset(rows) && Verify(h, p).Intact?
    ensures (UniqueHashes(multiset(Live(rows))) && GenesisHash(h, tenant) !in Hashes(Live(rows)))
         || Collision(h, Hashed(tenant, Live(rows)))
  {
    hide Verify, Filter, Collision, GenesisHash, UniqueHashes;
    SameMembers(p, rows);
    MembersOfLive(rows, p);
    SingleTenantChain(p, tenant, tenant);
    AcceptedChainIsFresh(h, p, tenant);
    assert Hashed(tenant, Live(p)) == Hashed(tenant, Live(rows));
    if NoRepeat(Live(p)) { FreshIsUnique(Live(p), Live(rows)); }
  }

  /**
   Some order of one tenant's rows verifies if and only if their hashes are
   distinct and the recovered order verifies, or the rows' hashed texts collide.
   */
  lemma OrderingDecides(h: Sha256, rows: seq<Row>, tenant: Str)
    requires ValidRows(rows) && forall r :: r in Live(rows) ==> r.body.tenantId == tenant
    ensures Collision(h, Hashed(tenant, Live(rows)))
         || (SomeOrderVerifies(h, rows) <==>
             && UniqueHashes(multiset(Live(rows)))
             && Verify(h, Ordered(rows, Some(GenesisHash(h, tenant)))).Intact?)
  {
    hide Verify, Ordered, Filter, Hashed, Collision, GenesisHash, UniqueHashes, Hashes;
    var genesis := GenesisHash(h, tenant);
    if UniqueHashes(multiset(Live(rows))) {
      OrderingKeepsRows(rows, Some(genesis));
    }
    if p: seq<Row> :| multiset(p) == multiset(rows) && Verify(h, p).Intact? {
      VerifiableRowsAreFresh(h, rows, p, tenant);
      if !Collision(h, Hashed(tenant, Live(rows))) {
        AcceptedOrderFound(h, rows, p, tenant);
      }
    }
  }
}
