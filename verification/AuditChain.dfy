/**
 The tamper-evident audit hash chain: the genesis and row hashes, the
 multi-tenant verifier, and what it means for a log to be accepted.

 The hash is an arbitrary function onto 64-digit texts. It is never assumed
 injective: a result either holds or exhibits two different texts, both among
 those hashed for the logs at hand, with the same digest.
 */
module AuditChain {
  import opened Options
  import opened JsText
  import opened AuditRow

  predicate IsDigest(d: Str) {
    |d| == 64 && forall i :: 0 <= i < |d| ==> IsHexDigit(d[i])
  }

  type Digest = d: Str | IsDigest(d) witness seq(64, _ => 0x30)

  type Sha256 = Str -> Digest

  const GENESIS_PREFIX: Str := Ascii("RATESASSIST_AUDIT_CHAIN_GENESIS_")

  function GenesisText(tenant: Str): Str { GENESIS_PREFIX + tenant }

  function RowText(prev: Str, b: Body): Str { prev + Canonicalise(b) }

  function GenesisHash(h: Sha256, tenant: Str): Digest { h(GenesisText(tenant)) }

  function RowHash(h: Sha256, prev: Str, b: Body): Digest { h(RowText(prev, b)) }

  // ---------- chains ----------

  // The kinds of rows a log is split by.
  datatype Selector =
    | OnChain(tenant: Str)
    | OfTenant(tenant: Str)
    | NotSentinel
    | Legacy
    | PrevOutside(hashes: set<Str>)
    | HashOutside(hashes: set<Str>)
  {
    predicate Picks(r: Row) {
      match this
      case OnChain(t) => !r.Sentinel() && r.body.tenantId == t
      case OfTenant(t) => r.body.tenantId == t
      case NotSentinel => !r.Sentinel()
      case Legacy => r.Sentinel()
      case PrevOutside(hs) => r.prevHash !in hs
      case HashOutside(hs) => r.rowHash !in hs
    }
  }

  function Filter(rows: seq<Row>, p: Selector): seq<Row> {
    if rows == [] then []
    else
      var last := rows[|rows| - 1];
      Filter(rows[..|rows| - 1], p) + (if p.Picks(last) then [last] else [])
  }

  // One tenant's verifiable rows, in reading order.
  function ChainOf(rows: seq<Row>, tenant: Str): seq<Row> { Filter(rows, OnChain(tenant)) }

  // The hash that the row after chain c must carry as its prevHash.
  function EndOf(start: Str, c: seq<Row>): Str {
    if c == [] then start else c[|c| - 1].rowHash
  }

  predicate LinkOk(h: Sha256, start: Str, c: seq<Row>, i: nat)
    requires i < |c|
  {
    c[i].prevHash == EndOf(start, c[..i]) && c[i].rowHash == RowHash(h, c[i].prevHash, c[i].body)
  }

  ghost predicate Linked(h: Sha256, start: Str, c: seq<Row>) {
    forall i :: 0 <= i < |c| ==> LinkOk(h, start, c, i)
  }

  function Head(h: Sha256, rows: seq<Row>, tenant: Str): Str {
    EndOf(GenesisHash(h, tenant), ChainOf(rows, tenant))
  }

  // One tenant's rows form an unbroken chain from its genesis hash.
  ghost predicate TenantAccepted(h: Sha256, rows: seq<Row>, tenant: Str) {
    Linked(h, GenesisHash(h, tenant), ChainOf(rows, tenant))
  }

  // What it means for a log to be untampered.
  ghost predicate Accepted(h: Sha256, rows: seq<Row>) {
    forall tenant: Str :: TenantAccepted(h, rows, tenant)
  }

  lemma FilterSnoc(rows: seq<Row>, r: Row, p: Selector)
    ensures Filter(rows + [r], p) == Filter(rows, p) + (if p.Picks(r) then [r] else [])
  {
  }

  lemma ChainSnoc(rows: seq<Row>, r: Row, tenant: Str)
    ensures ChainOf(rows + [r], tenant)
         == ChainOf(rows, tenant) + (if !r.Sentinel() && r.body.tenantId == tenant then [r] else [])
  {
  }

  lemma LinkedSnoc(h: Sha256, start: Str, c: seq<Row>, r: Row)
    ensures Linked(h, start, c + [r]) <==>
      Linked(h, start, c) && r.prevHash == EndOf(start, c) && r.rowHash == RowHash(h, r.prevHash, r.body)
  {
    var d := c + [r];
    forall i | 0 <= i < |c|
      ensures LinkOk(h, start, d, i) <==> LinkOk(h, start, c, i)
    {
      assert d[..i] == c[..i];
    }
    assert LinkOk(h, start, d, |c|) <==>
      r.prevHash == EndOf(start, c) && r.rowHash == RowHash(h, r.prevHash, r.body) by {
      assert d[..|c|] == c;
    }
  }

  // ---------- the verifier ----------

  datatype Verdict =
    | Intact(verified: nat)
    | Broken(firstBreakIndex: nat, expectedHash: Str, actualHash: Str)

  // What the verifier says about row r once the rows before it have been read.
  function Check(h: Sha256, before: seq<Row>, r: Row): (v: Option<Verdict>)
    ensures v.Some? ==> v.value.Broken?
  {
    if r.Sentinel() then None
    else
      var expectedPrev := Head(h, before, r.body.tenantId);
      var expectedRow := RowHash(h, expectedPrev, r.body);
      if r.prevHash != expectedPrev then Some(Broken(|before|, expectedPrev, r.prevHash))
      else if r.rowHash != expectedRow then Some(Broken(|before|, expectedRow, r.rowHash))
      else None
  }

  function CheckAt(h: Sha256, rows: seq<Row>, i: nat): (v: Option<Verdict>)
    requires i < |rows|
    ensures v.Some? ==> v.value.Broken?
  {
    Check(h, rows[..i], rows[i])
  }

  function VerifyFrom(h: Sha256, rows: seq<Row>, i: nat): Verdict
    requires i <= |rows|
    decreases |rows| - i
  {
    if i == |rows| then Intact(|rows|)
    else
      match CheckAt(h, rows, i)
      case Some(v) => v
      case None => VerifyFrom(h, rows, i + 1)
  }

  function Verify(h: Sha256, rows: seq<Row>): Verdict { VerifyFrom(h, rows, 0) }

  ghost predicate HeadsAre(h: Sha256, rows: seq<Row>, m: map<Str, Str>) {
    forall t: Str :: Head(h, rows, t) == (if t in m then m[t] else GenesisHash(h, t))
  }

  lemma HeadSnoc(h: Sha256, rows: seq<Row>, r: Row, tenant: Str)
    ensures Head(h, rows + [r], tenant)
      == if !r.Sentinel() && r.body.tenantId == tenant then r.rowHash else Head(h, rows, tenant)
  {
    ChainSnoc(rows, r, tenant);
  }

  lemma HeadsSnoc(h: Sha256, rows: seq<Row>, m: map<Str, Str>, r: Row)
    requires HeadsAre(h, rows, m)
    ensures HeadsAre(h, rows + [r], if r.Sentinel() then m else m[r.body.tenantId := r.rowHash])
  {
    forall t: Str { HeadSnoc(h, rows, r, t); }
  }

  method VerifyChain(h: Sha256, rows: seq<Row>) returns (v: Verdict)
    ensures v == Verify(h, rows) && Sound(h, rows, v)
  {
    VerdictSound(h, rows);
    var expectedPrevByTenant: map<Str, Str> := map[];
    for i := 0 to |rows|
      invariant HeadsAre(h, rows[..i], expectedPrevByTenant)
      invariant Verify(h, rows) == VerifyFrom(h, rows, i)
    {
      var row := rows[i];
      assert rows[..i + 1] == rows[..i] + [row];
      HeadsSnoc(h, rows[..i], expectedPrevByTenant, row);
      if row.Sentinel() { continue; }
      var expectedPrev :=
        if row.body.tenantId in expectedPrevByTenant then expectedPrevByTenant[row.body.tenantId]
        else GenesisHash(h, row.body.tenantId);
      if row.prevHash != expectedPrev { return Broken(i, expectedPrev, row.prevHash); }
      var expectedRowHash := RowHash(h, expectedPrev, row.body);
      if row.rowHash != expectedRowHash { return Broken(i, expectedRowHash, row.rowHash); }
      expectedPrevByTenant := expectedPrevByTenant[row.body.tenantId := row.rowHash];
    }
    return Intact(|rows|);
  }

  lemma TenantSnoc(h: Sha256, rows: seq<Row>, r: Row, t: Str)
    ensures TenantAccepted(h, rows + [r], t) <==>
      TenantAccepted(h, rows, t) && (t == r.body.tenantId ==> Check(h, rows, r).None?)
  {
    var start, c := GenesisHash(h, t), ChainOf(rows, t);
    ChainSnoc(rows, r, t);
    if !r.Sentinel() && r.body.tenantId == t {
      assert ChainOf(rows + [r], t) == c + [r];
      LinkedSnoc(h, start, c, r);
      assert Head(h, rows, t) == EndOf(start, c);
    } else {
      assert ChainOf(rows + [r], t) == c;
    }
  }

  lemma AcceptedSnoc(h: Sha256, rows: seq<Row>, r: Row)
    ensures Accepted(h, rows + [r]) <==> Accepted(h, rows) && Check(h, rows, r).None?
  {
    forall t: Str { TenantSnoc(h, rows, r, t); }
    if Accepted(h, rows + [r]) {
      assert TenantAccepted(h, rows + [r], r.body.tenantId);
    }
  }

  lemma AcceptedPrefix(h: Sha256, rows: seq<Row>, i: nat)
    requires Accepted(h, rows) && i <= |rows|
    ensures Accepted(h, rows[..i])
    decreases |rows| - i
  {
    if i < |rows| {
      AcceptedPrefix(h, rows, i + 1);
      assert rows[..i + 1] == rows[..i] + [rows[i]];
      AcceptedSnoc(h, rows[..i], rows[i]);
    } else {
      assert rows[..i] == rows;
    }
  }

  // A verdict is right about a log.
  ghost predicate Sound(h: Sha256, rows: seq<Row>, v: Verdict) {
    match v
    case Intact(n) => n == |rows| && Accepted(h, rows)
    case Broken(i, expected, actual) =>
      i < |rows| && expected != actual && Accepted(h, rows[..i]) && !Accepted(h, rows[..i + 1])
  }

  lemma {:induction false} VerifyFromSound(h: Sha256, rows: seq<Row>, i: nat)
    requires i <= |rows| && Accepted(h, rows[..i])
    ensures Sound(h, rows, VerifyFrom(h, rows, i))
    decreases |rows| - i
  {
    if i == |rows| {
      assert rows[..i] == rows;
    } else {
      assert rows[..i + 1] == rows[..i] + [rows[i]];
      AcceptedSnoc(h, rows[..i], rows[i]);
      if CheckAt(h, rows, i).None? { VerifyFromSound(h, rows, i + 1); }
    }
  }

  lemma NothingAccepted(h: Sha256)
    ensures Accepted(h, [])
  {
    forall t: Str ensures TenantAccepted(h, [], t) { }
  }

  /** The verifier accepts exactly the untampered logs, and otherwise names the least prefix that is not. */
  lemma VerdictSound(h: Sha256, rows: seq<Row>)
    ensures Sound(h, rows, Verify(h, rows))
    ensures Verify(h, rows).Intact? <==> Accepted(h, rows)
  {
    NothingAccepted(h);
    VerifyFromSound(h, rows, 0);
    var v := Verify(h, rows);
    if v.Broken? && Accepted(h, rows) { AcceptedPrefix(h, rows, v.firstBreakIndex + 1); }
  }
}
