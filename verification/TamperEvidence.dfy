/**
 What an accepted audit log proves: its head binds the whole history, no hash
 repeats along it, and a doctored row is found where it is.
 */
module TamperEvidence {
  import opened Options
  import opened JsText
  import opened AuditRow
  import opened AuditChain

  // ---------- collisions, always among texts hashed for the logs at hand ----------

  // The texts hashed to verify one tenant's chain.
  function Hashed(tenant: Str, c: seq<Row>): set<Str> {
    {GenesisText(tenant)} + set r | r in c :: RowText(r.prevHash, r.body)
  }

  ghost predicate Collision(h: Sha256, texts: set<Str>) {
    exists x, y :: x in texts && y in texts && x != y && h(x) == h(y)
  }

  // Some tenant's own hashed texts hold a collision.
  ghost predicate LogCollides(h: Sha256, log: seq<Row>) {
    exists t: Str :: Collision(h, Hashed(t, ChainOf(log, t)))
  }

  lemma Collide(h: Sha256, texts: set<Str>, x: Str, y: Str)
    requires x in texts && y in texts && x != y && h(x) == h(y)
    ensures Collision(h, texts)
  {
  }

  lemma CollisionMonotone(h: Sha256, a: set<Str>, b: set<Str>, c: set<Str>, d: set<Str>)
    requires Collision(h, a + b) && a <= c && b <= d
    ensures Collision(h, c + d)
  {
  }

  // ---------- head binding ----------

  ghost predicate SameHistory(a: seq<Row>, b: seq<Row>) {
    |a| == |b| && forall i :: 0 <= i < |a| ==>
      SameBody(a[i].body, b[i].body) && a[i].prevHash == b[i].prevHash && a[i].rowHash == b[i].rowHash
  }

  lemma PrefixLinked(h: Sha256, start: Str, c: seq<Row>, n: nat)
    requires Linked(h, start, c) && n <= |c|
    ensures Linked(h, start, c[..n])
  {
    var d := c[..n];
    forall i | 0 <= i < n
      ensures LinkOk(h, start, d, i)
    {
      assert LinkOk(h, start, c, i);
      assert d[..i] == c[..i];
    }
  }

  // The last row of a chain, and what is left without it.
  lemma LastLink(h: Sha256, tenant: Str, c: seq<Row>)
    requires c != [] && Linked(h, GenesisHash(h, tenant), c)
    ensures var n, start := |c| - 1, GenesisHash(h, tenant);
      && Linked(h, start, c[..n])
      && c[n].prevHash == EndOf(start, c[..n]) && IsDigest(c[n].prevHash)
      && EndOf(start, c) == h(RowText(c[n].prevHash, c[n].body))
      && RowText(c[n].prevHash, c[n].body) in Hashed(tenant, c)
      && Hashed(tenant, c[..n]) <= Hashed(tenant, c)
  {
    var n, start := |c| - 1, GenesisHash(h, tenant);
    PrefixLinked(h, start, c, n);
    assert LinkOk(h, start, c, n);
    if n > 0 {
      assert LinkOk(h, start, c, n - 1);
    }
  }

  // A digest and what follows it can be told apart; a genesis text starts with no digest.
  lemma RowTextUnique(p: Str, a: Body, q: Str, b: Body)
    requires IsDigest(p) && IsDigest(q) && ValidBody(a) && ValidBody(b)
    requires RowText(p, a) == RowText(q, b)
    ensures p == q && SameBody(a, b)
  {
    var t := RowText(p, a);
    assert p == t[..64] && q == t[..64];
    assert Canonicalise(a) == t[64..] && Canonicalise(b) == t[64..];
    CanonicalBody(a, b);
  }

  lemma GenesisIsNoRow(tenant: Str, p: Str, b: Body)
    requires IsDigest(p)
    ensures GenesisText(tenant) != RowText(p, b)
  {
    assert GenesisText(tenant)[0] == 'R' as int;
    assert RowText(p, b)[0] == p[0] && IsHexDigit(p[0]);
  }

  lemma {:induction false} ChainBinding(h: Sha256, tenant: Str, a: seq<Row>, b: seq<Row>)
    requires ValidRows(a) && ValidRows(b)
    requires Linked(h, GenesisHash(h, tenant), a) && Linked(h, GenesisHash(h, tenant), b)
    requires EndOf(GenesisHash(h, tenant), a) == EndOf(GenesisHash(h, tenant), b)
    ensures SameHistory(a, b) || Collision(h, Hashed(tenant, a) + Hashed(tenant, b))
    decreases |a|
  {
    if a != [] { LastLink(h, tenant, a); }
    if b != [] { LastLink(h, tenant, b); }
    if a == [] && b == [] {
    } else if a == [] {
      GenesisVersusChain(h, tenant, b);
    } else if b == [] {
      GenesisVersusChain(h, tenant, a);
    } else {
      var r, s := a[|a| - 1], b[|b| - 1];
      var a', b' := a[..|a| - 1], b[..|b| - 1];
      var x, y := RowText(r.prevHash, r.body), RowText(s.prevHash, s.body);
      if x == y {
        RowTextUnique(r.prevHash, r.body, s.prevHash, s.body);
        ChainBinding(h, tenant, a', b');
        if SameHistory(a', b') {
          SameHistorySnoc(a, b);
        } else {
          CollisionMonotone(h, Hashed(tenant, a'), Hashed(tenant, b'), Hashed(tenant, a), Hashed(tenant, b));
        }
      } else {
        Collide(h, Hashed(tenant, a) + Hashed(tenant, b), x, y);
      }
    }
  }

  lemma GenesisVersusChain(h: Sha256, tenant: Str, c: seq<Row>)
    requires c != [] && Linked(h, GenesisHash(h, tenant), c)
    requires GenesisHash(h, tenant) == EndOf(GenesisHash(h, tenant), c)
    ensures Collision(h, Hashed(tenant, c) + Hashed(tenant, [])) && Collision(h, Hashed(tenant, []) + Hashed(tenant, c))
  {
    LastLink(h, tenant, c);
    var r := c[|c| - 1];
    GenesisIsNoRow(tenant, r.prevHash, r.body);
    Collide(h, Hashed(tenant, c) + Hashed(tenant, []), GenesisText(tenant), RowText(r.prevHash, r.body));
    Collide(h, Hashed(tenant, []) + Hashed(tenant, c), GenesisText(tenant), RowText(r.prevHash, r.body));
  }

  lemma SameHistorySnoc(a: seq<Row>, b: seq<Row>)
    requires a != [] && b != [] && SameHistory(a[..|a| - 1], b[..|b| - 1])
    requires var r, s := a[|a| - 1], b[|b| - 1];
      SameBody(r.body, s.body) && r.prevHash == s.prevHash && r.rowHash == s.rowHash
    ensures SameHistory(a, b)
  {
    var m := |a| - 1;
    assert forall i :: 0 <= i < m ==> a[i] == a[..m][i] && b[i] == b[..m][i];
  }

  lemma FilterValid(rows: seq<Row>, p: Selector)
    requires ValidRows(rows)
    ensures ValidRows(Filter(rows, p))
  {
  }

  /**
   Two accepted logs with the same head for a tenant hold the same history of
   that tenant, whatever their lengths, or the two logs exhibit a collision.
   */
  lemma HeadBindsHistory(h: Sha256, a: seq<Row>, b: seq<Row>, tenant: Str)
    requires ValidRows(a) && ValidRows(b)
    requires Verify(h, a).Intact? && Verify(h, b).Intact?
    requires Head(h, a, tenant) == Head(h, b, tenant)
    ensures SameHistory(ChainOf(a, tenant), ChainOf(b, tenant))
         || Collision(h, Hashed(tenant, ChainOf(a, tenant)) + Hashed(tenant, ChainOf(b, tenant)))
  {
    VerdictSound(h, a);
    VerdictSound(h, b);
    assert TenantAccepted(h, a, tenant) && TenantAccepted(h, b, tenant);
    FilterValid(a, OnChain(tenant));
    FilterValid(b, OnChain(tenant));
    ChainBinding(h, tenant, ChainOf(a, tenant), ChainOf(b, tenant));
  }

  lemma PrefixHashesDistinct(h: Sha256, tenant: Str, c: seq<Row>, i: nat, j: nat)
    requires ValidRows(c) && Linked(h, GenesisHash(h, tenant), c) && i < j <= |c|
    requires EndOf(GenesisHash(h, tenant), c[..i]) == EndOf(GenesisHash(h, tenant), c[..j])
    ensures Collision(h, Hashed(tenant, c))
  {
    PrefixLinked(h, GenesisHash(h, tenant), c, i);
    PrefixLinked(h, GenesisHash(h, tenant), c, j);
    ChainBinding(h, tenant, c[..i], c[..j]);
    HashedPrefix(tenant, c, i);
    HashedPrefix(tenant, c, j);
    assert Hashed(tenant, c) + Hashed(tenant, c) == Hashed(tenant, c);
    CollisionMonotone(h, Hashed(tenant, c[..i]), Hashed(tenant, c[..j]), Hashed(tenant, c), Hashed(tenant, c));
  }

  /** No hash repeats along an accepted chain, and none is the genesis hash, or the log exhibits a collision. */
  lemma ChainHashesDistinct(h: Sha256, rows: seq<Row>, tenant: Str, i: nat, j: nat)
    requires ValidRows(rows) && Verify(h, rows).Intact?
    requires i < j <= |ChainOf(rows, tenant)|
    ensures var c, start := ChainOf(rows, tenant), GenesisHash(h, tenant);
            EndOf(start, c[..i]) != EndOf(start, c[..j]) || Collision(h, Hashed(tenant, c))
  {
    var c, start := ChainOf(rows, tenant), GenesisHash(h, tenant);
    VerdictSound(h, rows);
    assert TenantAccepted(h, rows, tenant);
    FilterValid(rows, OnChain(tenant));
    if EndOf(start, c[..i]) == EndOf(start, c[..j]) { PrefixHashesDistinct(h, tenant, c, i, j); }
  }

  lemma HashedPrefix(tenant: Str, c: seq<Row>, n: nat)
    requires n <= |c|
    ensures Hashed(tenant, c[..n]) <= Hashed(tenant, c)
  {
  }

  // ---------- tampering with one row ----------

  // Two rows the walk over a log cannot tell apart until it recomputes their hash.
  predicate SameShell(r: Row, s: Row) {
    r.body.tenantId == s.body.tenantId && r.prevHash == s.prevHash && r.rowHash == s.rowHash
  }

  lemma SnocSplit<T>(s: seq<T>)
    requires s != []
    ensures s == s[..|s| - 1] + [s[|s| - 1]]
  {
  }

  lemma {:induction false} SameHeads(h: Sha256, a: seq<Row>, b: seq<Row>, tenant: Str)
    requires |a| == |b| && forall i :: 0 <= i < |a| ==> SameShell(a[i], b[i])
    ensures Head(h, a, tenant) == Head(h, b, tenant)
  {
    if a != [] {
      var n := |a| - 1;
      SnocSplit(a);
      SnocSplit(b);
      HeadSnoc(h, a[..n], a[n], tenant);
      HeadSnoc(h, b[..n], b[n], tenant);
      SameHeads(h, a[..n], b[..n], tenant);
      assert SameShell(a[n], b[n]);
    }
  }

  // What is left to check of a row in its right place: that its hash is the hash of its body.
  function HashCheck(h: Sha256, i: nat, r: Row): Option<Verdict> {
    var expected := RowHash(h, r.prevHash, r.body);
    if expected != r.rowHash then Some(Broken(i, expected, r.rowHash)) else None
  }

  // Rewriting bodies leaves every head as it was: only the rewritten row's own hash can fail.
  lemma CheckElsewhere(h: Sha256, rows: seq<Row>, doctored: seq<Row>, k: nat)
    requires |rows| == |doctored| && k < |rows|
    requires forall j :: 0 <= j < |rows| ==> SameShell(rows[j], doctored[j])
    requires CheckAt(h, rows, k).None?
    ensures rows[k].Sentinel() ==> CheckAt(h, doctored, k).None?
    ensures !rows[k].Sentinel() ==>
      HashCheck(h, k, rows[k]).None? && CheckAt(h, doctored, k) == HashCheck(h, k, doctored[k])
  {
    SameHeads(h, rows[..k], doctored[..k], rows[k].body.tenantId);
  }

  lemma AcceptedRow(h: Sha256, rows: seq<Row>, i: nat)
    requires Verify(h, rows).Intact? && i < |rows| && !rows[i].Sentinel()
    ensures rows[i].prevHash == Head(h, rows[..i], rows[i].body.tenantId)
    ensures rows[i].rowHash == RowHash(h, rows[i].prevHash, rows[i].body)
  {
    VerdictSound(h, rows);
    AcceptedPrefix(h, rows, i + 1);
    SnocSplit(rows[..i + 1]);
    assert rows[..i + 1][..i] == rows[..i];
    AcceptedSnoc(h, rows[..i], rows[i]);
  }

  lemma {:induction false} TamperWalk(h: Sha256, rows: seq<Row>, i: nat, doctored: seq<Row>, k: nat)
    requires i < |rows| == |doctored| && !rows[i].Sentinel() && k <= |rows|
    requires forall j :: 0 <= j < |rows| ==> SameShell(rows[j], doctored[j])
    requires forall j :: 0 <= j < |rows| && j != i ==> HashCheck(h, j, doctored[j]) == HashCheck(h, j, rows[j])
    requires VerifyFrom(h, rows, k).Intact?
    ensures VerifyFrom(h, doctored, k)
         == if k <= i && HashCheck(h, i, doctored[i]).Some? then HashCheck(h, i, doctored[i]).value else Intact(|rows|)
    decreases |rows| - k
  {
    hide CheckAt, HashCheck;
    if k < |rows| {
      CheckElsewhere(h, rows, doctored, k);
      if k != i || HashCheck(h, i, doctored[i]).None? { TamperWalk(h, rows, i, doctored, k + 1); }
    }
  }

  lemma {:induction false} SameUpTo(h: Sha256, rows: seq<Row>, doctored: seq<Row>, i: nat, k: nat)
    requires k <= i <= |rows| == |doctored| && rows[..i] == doctored[..i]
    requires VerifyFrom(h, rows, k).Intact?
    ensures VerifyFrom(h, doctored, k) == VerifyFrom(h, doctored, i)
    decreases i - k
  {
    hide Check;
    if k < i {
      assert rows[..k] == rows[..i][..k] == doctored[..k];
      assert rows[k] == rows[..i][k] == doctored[k];
      SameUpTo(h, rows, doctored, i, k + 1);
    }
  }

  // The verifier's findings on a row whose stored hashes are those of another body.
  function Exposed(h: Sha256, i: nat, expectedPrev: Str, r: Row): Verdict {
    if r.prevHash != expectedPrev then Broken(i, expectedPrev, r.prevHash)
    else Broken(i, RowHash(h, r.prevHash, r.body), r.rowHash)
  }

  // A body moved to another tenant is judged by that tenant's chain.
  lemma MovedRow(h: Sha256, rows: seq<Row>, i: nat, body: Body)
    requires Verify(h, rows).Intact? && i < |rows| && !rows[i].Sentinel()
    ensures (var r := rows[i].(body := body);
             var expectedPrev := Head(h, rows[..i], body.tenantId);
             r.prevHash != expectedPrev || RowHash(h, r.prevHash, body) != r.rowHash ==>
               Verify(h, rows[i := r]) == Exposed(h, i, expectedPrev, r))
  {
    hide Head, RowHash;
    var doctored := rows[i := rows[i].(body := body)];
    SameUpTo(h, rows, doctored, i, 0);
    assert doctored[..i] == rows[..i];
  }

  /**
   Rewriting the body of any one row and nothing else is found, at exactly that
   row, unless the new text collides with the old one: the same body in another
   key order is the one undetected change.
   */
  lemma TamperLocalised(h: Sha256, rows: seq<Row>, i: nat, body: Body)
    requires Verify(h, rows).Intact?
    requires i < |rows| && !rows[i].Sentinel()
    requires ValidBody(rows[i].body) && ValidBody(body)
    ensures (var r := rows[i];
             var v := Verify(h, rows[i := r.(body := body)]);
             var was, now := RowText(r.prevHash, r.body), RowText(r.prevHash, body);
             if SameBody(body, r.body) then v == Intact(|rows|)
             else
               || v == Exposed(h, i, Head(h, rows[..i], body.tenantId), r.(body := body))
               || (was != now && h(was) == h(now)
                   && (body.tenantId == r.body.tenantId ==> v == Intact(|rows|))))
  {
    var r := rows[i];
    AcceptedRow(h, rows, i);
    CanonicalBody(body, r.body);
    SameTail(r.prevHash, Canonicalise(r.body), Canonicalise(body));
    MovedRow(h, rows, i, body);
    if body.tenantId == r.body.tenantId {
      TamperWalk(h, rows, i, rows[i := r.(body := body)], 0);
    }
  }

  lemma SameTail(p: Str, x: Str, y: Str)
    ensures p + x == p + y <==> x == y
  {
    assert x == (p + x)[|p|..] && y == (p + y)[|p|..];
  }
}
