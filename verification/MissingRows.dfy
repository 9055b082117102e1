/**
 What the verifier says of a log from which rows are missing: rows deleted
 anywhere but at the end of a tenant's chain are always noticed, the end is
 noticed by the head hash, and a window that has lost a tenant's first row
 breaks at its own first row.
 */
module MissingRows {
  import opened JsText
  import opened AuditRow
  import opened AuditChain
  import opened AuditLog
  import opened TamperEvidence
  import ChainRecovery

  // The rows of a are rows of b, in order, with some left out.
  predicate Subsequence(a: seq<Row>, b: seq<Row>)
    decreases |b|
  {
    a == [] ||
    (b != [] &&
     var m, n := |a| - 1, |b| - 1;
     (a[m] == b[n] && Subsequence(a[..m], b[..n])) || Subsequence(a, b[..n]))
  }

  lemma Longer(a: seq<Row>, b: seq<Row>, r: Row)
    requires Subsequence(a, b)
    ensures Subsequence(a + [r], b + [r]) && Subsequence(a, b + [r])
  {
    assert (a + [r])[..|a|] == a && (b + [r])[..|b|] == b;
  }

  lemma LastOrNot(a: seq<Row>, b: seq<Row>)
    requires Subsequence(a, b) && a != []
    ensures b != []
    ensures (var m, n := |a| - 1, |b| - 1;
             (a[m] == b[n] && Subsequence(a[..m], b[..n])) || Subsequence(a, b[..n]))
  {
  }

  lemma NothingKept(b: seq<Row>)
    ensures Subsequence([], b)
  {
  }

  lemma FilterNothing(p: Selector)
    ensures Filter([], p) == []
  {
  }

  lemma {:induction false} FilterSubsequence(a: seq<Row>, b: seq<Row>, p: Selector)
    requires Subsequence(a, b)
    ensures Subsequence(Filter(a, p), Filter(b, p))
    decreases |b|
  {
    hide Subsequence, Filter;
    NothingKept(Filter(b, p));
    if a == [] {
      FilterNothing(p);
    } else {
      LastOrNot(a, b);
      var m, n := |a| - 1, |b| - 1;
      SnocSplit(b);
      FilterSnoc(b[..n], b[n], p);
      assert Filter(b[..n], p) + [] == Filter(b[..n], p);
      if a[m] == b[n] && Subsequence(a[..m], b[..n]) {
        SnocSplit(a);
        FilterSnoc(a[..m], a[m], p);
        assert Filter(a[..m], p) + [] == Filter(a[..m], p);
        FilterSubsequence(a[..m], b[..n], p);
        Longer(Filter(a[..m], p), Filter(b[..n], p), b[n]);
      } else {
        FilterSubsequence(a, b[..n], p);
        Longer(Filter(a, p), Filter(b[..n], p), b[n]);
      }
    }
  }

  lemma {:induction false} SubsequenceLength(a: seq<Row>, b: seq<Row>)
    requires Subsequence(a, b)
    ensures |a| <= |b| && (|a| == |b| ==> a == b)
    decreases |b|
  {
    if a != [] {
      var m, n := |a| - 1, |b| - 1;
      SnocSplit(a);
      SnocSplit(b);
      if a[m] == b[n] && Subsequence(a[..m], b[..n]) {
        SubsequenceLength(a[..m], b[..n]);
      } else {
        SubsequenceLength(a, b[..n]);
      }
    }
  }

  // Where the last row kept stood, and that the rest was kept from before it.
  lemma {:induction false} LastKept(a: seq<Row>, b: seq<Row>) returns (j: nat)
    requires Subsequence(a, b) && a != []
    ensures j < |b| && b[j] == a[|a| - 1] && Subsequence(a, b[..j + 1])
    decreases |b|
  {
    var m, n := |a| - 1, |b| - 1;
    if a[m] == b[n] && Subsequence(a[..m], b[..n]) {
      j := n;
      assert b[..n + 1] == b;
    } else {
      j := LastKept(a, b[..n]);
      assert b[..n][..j + 1] == b[..j + 1];
    }
  }

  // ---------- deleted rows ----------

  // What is kept of one chain still links exactly when only its end was cut off.
  lemma CutChain(h: Sha256, tenant: Str, kept: seq<Row>, c: seq<Row>)
    requires ValidRows(c) && Linked(h, GenesisHash(h, tenant), c) && Subsequence(kept, c)
    ensures (Linked(h, GenesisHash(h, tenant), kept) <==> kept <= c) || Collision(h, Hashed(tenant, c))
  {
    hide Linked, ValidRows, GenesisHash, Collision, Hashed;
    var start := GenesisHash(h, tenant);
    if kept <= c {
      PrefixLinked(h, start, c, |kept|);
      assert kept == c[..|kept|];
    } else if Linked(h, start, kept) {
      var j := LastKept(kept, c);
      PrefixLinked(h, start, c, j + 1);
      assert EndOf(start, kept) == EndOf(start, c[..j + 1]);
      KeptValid(kept, c);
      PrefixValid(c, j + 1);
      ChainBinding(h, tenant, kept, c[..j + 1]);
      KeptHashed(tenant, kept, c);
      HashedPrefix(tenant, c, j + 1);
      if SameHistory(kept, c[..j + 1]) {
        SubsequenceLength(kept, c[..j + 1]);
      } else {
        assert Hashed(tenant, c) + Hashed(tenant, c) == Hashed(tenant, c);
        CollisionMonotone(h, Hashed(tenant, kept), Hashed(tenant, c[..j + 1]), Hashed(tenant, c), Hashed(tenant, c));
      }
    }
  }

  lemma {:induction false} KeptMembers(a: seq<Row>, b: seq<Row>)
    requires Subsequence(a, b)
    ensures forall r :: r in a ==> r in b
    decreases |b|
  {
    if a != [] {
      var m, n := |a| - 1, |b| - 1;
      SnocSplit(a);
      SnocSplit(b);
      if a[m] == b[n] && Subsequence(a[..m], b[..n]) { KeptMembers(a[..m], b[..n]); } else { KeptMembers(a, b[..n]); }
    }
  }

  lemma KeptValid(kept: seq<Row>, c: seq<Row>)
    requires Subsequence(kept, c) && ValidRows(c)
    ensures ValidRows(kept)
  {
    KeptMembers(kept, c);
  }

  lemma PrefixValid(c: seq<Row>, n: nat)
    requires n <= |c| && ValidRows(c)
    ensures ValidRows(c[..n])
  {
  }

  lemma KeptHashed(tenant: Str, kept: seq<Row>, c: seq<Row>)
    requires Subsequence(kept, c)
    ensures Hashed(tenant, kept) <= Hashed(tenant, c)
  {
    KeptMembers(kept, c);
  }

  lemma TenantCut(h: Sha256, rows: seq<Row>, kept: seq<Row>, tenant: Str)
    requires ValidRows(rows) && TenantAccepted(h, rows, tenant) && Subsequence(kept, rows)
    ensures (TenantAccepted(h, kept, tenant) <==> ChainOf(kept, tenant) <= ChainOf(rows, tenant))
         || Collision(h, Hashed(tenant, ChainOf(rows, tenant)))
  {
    hide Linked, Collision, Hashed;
    FilterSubsequence(kept, rows, OnChain(tenant));
    FilterValid(rows, OnChain(tenant));
    CutChain(h, tenant, ChainOf(kept, tenant), ChainOf(rows, tenant));
  }

  /**
   Deleting rows from an accepted log goes unnoticed exactly when, for every
   tenant, what is gone is the end of its chain, or the log holds a collision.
   */
  lemma DeletionNoticed(h: Sha256, rows: seq<Row>, kept: seq<Row>)
    requires ValidRows(rows) && Verify(h, rows).Intact? && Subsequence(kept, rows)
    ensures (Verify(h, kept).Intact? <==> forall t: Str :: ChainOf(kept, t) <= ChainOf(rows, t))
         || LogCollides(h, rows)
  {
    hide Verify, ChainOf, Collision, Hashed, TenantAccepted, ValidRows, Subsequence;
    VerdictSound(h, rows);
    VerdictSound(h, kept);
    forall t: Str
      ensures (TenantAccepted(h, kept, t) <==> ChainOf(kept, t) <= ChainOf(rows, t))
           || Collision(h, Hashed(t, ChainOf(rows, t)))
    {
      assert TenantAccepted(h, rows, t);
      TenantCut(h, rows, kept, t);
    }
  }

  /** And when a tenant's head hash is unchanged as well, none of its rows is missing. */
  lemma HeadPinsRows(h: Sha256, rows: seq<Row>, kept: seq<Row>, tenant: Str)
    requires ValidRows(rows) && Verify(h, rows).Intact? && Subsequence(kept, rows)
    requires Verify(h, kept).Intact? && Head(h, kept, tenant) == Head(h, rows, tenant)
    ensures ChainOf(kept, tenant) == ChainOf(rows, tenant)
         || Collision(h, Hashed(tenant, ChainOf(rows, tenant)))
  {
    hide Verify, Linked, Collision, Hashed, Head;
    FilterSubsequence(kept, rows, OnChain(tenant));
    var k, c := ChainOf(kept, tenant), ChainOf(rows, tenant);
    KeptValid(kept, rows);
    HeadBindsHistory(h, kept, rows, tenant);
    if SameHistory(k, c) {
      SubsequenceLength(k, c);
    } else {
      KeptHashed(tenant, k, c);
      assert Hashed(tenant, c) + Hashed(tenant, c) == Hashed(tenant, c);
      CollisionMonotone(h, Hashed(tenant, k), Hashed(tenant, c), Hashed(tenant, c), Hashed(tenant, c));
    }
  }

  // ---------- evicted rows ----------

  lemma TailFilter(rows: seq<Row>, k: nat, p: Selector) returns (m: nat)
    requires k <= |rows|
    ensures m <= |Filter(rows, p)| && Filter(rows[k..], p) == Filter(rows, p)[m..]
  {
    ChainRecovery.FilterAppend(rows[..k], rows[k..], p);
    assert rows == rows[..k] + rows[k..];
    m := |Filter(rows[..k], p)|;
  }

  lemma NewestIsTail<T>(s: seq<T>, n: nat) returns (k: nat)
    ensures k <= |s| && Newest(s, n) == s[k..]
  {
    k := if |s| <= n then 0 else |s| - n;
  }

  // Without legacy rows a tenant's rows are its chain.
  lemma {:induction false} WrittenChain(rows: seq<Row>, tenant: Str)
    requires forall r :: r in rows ==> !r.Sentinel()
    ensures Filter(rows, OfTenant(tenant)) == ChainOf(rows, tenant)
  {
    if rows != [] {
      SnocSplit(rows);
      WrittenChain(rows[..|rows| - 1], tenant);
    }
  }

  // A window is the end of the tenant's chain.
  lemma WindowIsTail(h: Sha256, bodies: seq<Body>, tenant: Str, limit: int) returns (m: nat)
    ensures (var c := ChainOf(Written(h, bodies), tenant);
             m <= |c| && Window(h, bodies, tenant, limit) == c[m..])
  {
    hide Written, Filter, Newest;
    var rows := Written(h, bodies);
    WrittenIsAccepted(h, bodies);
    WrittenChain(rows, tenant);
    var k := NewestIsTail(rows, MAX_ENTRIES);
    var i := TailFilter(rows, k, OfTenant(tenant));
    var j := NewestIsTail(Filter(rows[k..], OfTenant(tenant)), AtLeastOne(limit));
    m := i + j;
  }

  lemma TailVerdict(h: Sha256, rows: seq<Row>, tenant: Str, m: nat)
    requires ValidRows(rows) && Verify(h, rows).Intact? && m <= |ChainOf(rows, tenant)|
    requires forall r :: r in ChainOf(rows, tenant) ==> !r.Sentinel() && r.body.tenantId == tenant
    ensures (var c, start := ChainOf(rows, tenant), GenesisHash(h, tenant);
             var w := c[m..];
             || Verify(h, w) == (if m == 0 || w == [] then Intact(|w|) else Broken(0, start, w[0].prevHash))
             || Collision(h, Hashed(tenant, c)))
  {
    var c, start := ChainOf(rows, tenant), GenesisHash(h, tenant);
    var w := c[m..];
    if m == 0 || w == [] {
      WholeChainVerifies(h, rows, tenant);
      assert w == if m == 0 then c else [];
    } else {
      FirstOfTail(h, rows, tenant, m);
    }
  }

  lemma WholeChainVerifies(h: Sha256, rows: seq<Row>, tenant: Str)
    requires Verify(h, rows).Intact?
    requires forall r :: r in ChainOf(rows, tenant) ==> !r.Sentinel() && r.body.tenantId == tenant
    ensures Verify(h, ChainOf(rows, tenant)) == Intact(|ChainOf(rows, tenant)|) && Verify(h, []) == Intact(0)
  {
    hide Verify, Linked, ChainOf;
    var c := ChainOf(rows, tenant);
    VerdictSound(h, rows);
    VerdictSound(h, c);
    assert TenantAccepted(h, rows, tenant);
    ChainRecovery.FilterAll(c, NotSentinel);
    ChainRecovery.OnlyTenant(h, c, tenant);
    NothingAccepted(h);
    VerdictSound(h, []);
  }

  lemma FirstOfTail(h: Sha256, rows: seq<Row>, tenant: Str, m: nat)
    requires ValidRows(rows) && Verify(h, rows).Intact? && 0 < m < |ChainOf(rows, tenant)|
    requires (var r := ChainOf(rows, tenant)[m]; !r.Sentinel() && r.body.tenantId == tenant)
    ensures (var c := ChainOf(rows, tenant);
             || Verify(h, c[m..]) == Broken(0, GenesisHash(h, tenant), c[m].prevHash)
             || Collision(h, Hashed(tenant, c)))
  {
    hide ChainOf, Hashed, Collision, GenesisHash, Verify, RowHash;
    var c, start := ChainOf(rows, tenant), GenesisHash(h, tenant);
    ChainHashesDistinct(h, rows, tenant, 0, m);
    VerdictSound(h, rows);
    assert TenantAccepted(h, rows, tenant);
    assert LinkOk(h, start, c, m);
    assert c[..0] == [];
    assert c[m].prevHash == EndOf(start, c[..m]);
    if EndOf(start, c[..0]) != EndOf(start, c[..m]) {
      FirstCheck(h, c[m..], tenant);
    }
  }

  lemma FirstCheck(h: Sha256, w: seq<Row>, tenant: Str)
    requires w != [] && !w[0].Sentinel() && w[0].body.tenantId == tenant && w[0].prevHash != GenesisHash(h, tenant)
    ensures Verify(h, w) == Broken(0, GenesisHash(h, tenant), w[0].prevHash)
  {
    assert w[..0] == [];
    assert ChainOf([], tenant) == [];
  }

  /**
   The store's own window of a tenant verifies exactly as long as none of the
   tenant's rows is missing from it; then it breaks at its first row, unless it
   is empty or the log holds a collision.
   */
  lemma EvictionBreaksAtStart(h: Sha256, bodies: seq<Body>, tenant: Str, limit: int)
    requires forall b <- bodies :: ValidBody(b)
    ensures (var c, w := ChainOf(Written(h, bodies), tenant), Window(h, bodies, tenant, limit);
             || Verify(h, w) == (if w == [] || |w| == |c| then Intact(|w|)
                                 else Broken(0, GenesisHash(h, tenant), w[0].prevHash))
             || Collision(h, Hashed(tenant, c)))
  {
    hide Verify, Written, ChainOf, Window, Hashed, Collision;
    var rows := Written(h, bodies);
    WrittenIsAccepted(h, bodies);
    VerdictSound(h, rows);
    WrittenValid(h, bodies);
    forall r | r in ChainOf(rows, tenant) ensures !r.Sentinel() && r.body.tenantId == tenant {
      ChainRecovery.InChain(rows, tenant, r);
    }
    var m := WindowIsTail(h, bodies, tenant, limit);
    TailVerdict(h, rows, tenant, m);
  }

  lemma {:induction false} WrittenValid(h: Sha256, bodies: seq<Body>)
    requires forall b <- bodies :: ValidBody(b)
    ensures ValidRows(Written(h, bodies))
  {
    if bodies != [] {
      WrittenValid(h, bodies[..|bodies| - 1]);
    }
  }
}
