/**
 The fixed-window rate limiter, over whole runs of calls with a clock that does
 not run backwards.

 A window is closed at both ends, and the call that opens one counts in it; so
 any 60-second interval admits at most 2 * max - 1 calls for a key, and some
 runs reach that.
 */
module RateLimit {
  import opened Options
  import opened JsText

  const WINDOW := 60_000

  datatype Bucket = Bucket(count: int, resetAt: int)

  type Buckets = map<Str, Bucket>

  datatype Result = Admitted | Refused(resetAt: int)

  // What a call does to its key's bucket.
  function Consumed(bucket: Option<Bucket>, max: int, now: int): (Bucket, Result) {
    match bucket
    case None => (Bucket(1, now + WINDOW), Admitted)
    case Some(b) =>
      if b.resetAt < now then (Bucket(1, now + WINDOW), Admitted)
      else if b.count >= max then (b, Refused(b.resetAt))
      else (b.(count := b.count + 1), Admitted)
  }

  function Find(buckets: Buckets, key: Str): Option<Bucket> {
    if key in buckets then Some(buckets[key]) else None
  }

  // ---------- runs ----------

  datatype Call = Call(key: Str, max: int, now: int)

  function After(calls: seq<Call>): Buckets {
    if calls == [] then map[]
    else
      var n := |calls| - 1;
      var c, before := calls[n], After(calls[..n]);
      before[c.key := Consumed(Find(before, c.key), c.max, c.now).0]
  }

  // The outcome of call i of a run.
  function Outcome(calls: seq<Call>, i: nat): Result
    requires i < |calls|
  {
    Consumed(Find(After(calls[..i]), calls[i].key), calls[i].max, calls[i].now).1
  }

  ghost predicate Clocked(calls: seq<Call>) {
    forall i, j :: 0 <= i < j < |calls| ==> calls[i].now <= calls[j].now
  }

  class Limiter {
    var buckets: Buckets
    ghost var log: seq<Call>

    ghost predicate Valid()
      reads this
    {
      buckets == After(log)
    }

    constructor ()
      ensures Valid() && log == []
    {
      buckets := map[];
      log := [];
    }

    method Consume(key: Str, max: int, now: int) returns (r: Result)
      requires Valid()
      modifies this
      ensures Valid()
      ensures log == old(log) + [Call(key, max, now)] && r == Outcome(log, |old(log)|)
      ensures forall k :: k != key ==> Find(buckets, k) == Find(old(buckets), k)
    {
      log := log + [Call(key, max, now)];
      assert log[..|log| - 1] == old(log);
      if key !in buckets || buckets[key].resetAt < now {
        buckets := buckets[key := Bucket(1, now + WINDOW)];
        return Admitted;
      }
      var bucket := buckets[key];
      if bucket.count >= max {
        assert buckets == buckets[key := bucket];
        return Refused(bucket.resetAt);
      }
      buckets := buckets[key := bucket.(count := bucket.count + 1)];
      return Admitted;
    }
  }

  // Calls for a key admitted in the closed interval [from, from + WINDOW].
  function AdmittedIn(calls: seq<Call>, key: Str, from: int): nat {
    if calls == [] then 0
    else
      var n := |calls| - 1;
      var c := calls[n];
      AdmittedIn(calls[..n], key, from)
      + if c.key == key && from <= c.now <= from + WINDOW && Outcome(calls, n).Admitted? then 1 else 0
  }

  ghost predicate FixedMax(calls: seq<Call>, key: Str, max: int) {
    forall i :: 0 <= i < |calls| && calls[i].key == key ==> calls[i].max == max
  }

  lemma {:induction false} WindowStarted(calls: seq<Call>, key: Str)
    requires Clocked(calls) && key in After(calls)
    ensures calls != [] && After(calls)[key].resetAt - WINDOW <= calls[|calls| - 1].now
  {
    var n := |calls| - 1;
    if key in After(calls[..n]) {
      WindowStarted(calls[..n], key);
    }
  }

  // ---------- the bound ----------

  lemma {:induction false} NoneAfterWindow(calls: seq<Call>, key: Str, from: int)
    requires key in After(calls) ==> After(calls)[key].resetAt < from
    ensures AdmittedIn(calls, key, from) == 0
  {
    if calls != [] {
      NoneAfterWindow(calls[..|calls| - 1], key, from);
    }
  }

  // What a key's bucket says about how many calls the interval has admitted so far.
  ghost predicate Bounded(bucket: Option<Bucket>, admitted: int, max: int, from: int) {
    match bucket
    case None => admitted == 0
    case Some(b) =>
      var since := b.resetAt - WINDOW;
      && 1 <= b.count <= max
      && admitted <= 2 * max - 1
      && (since < from ==> admitted <= b.count - 1)
      && (from <= since <= from + WINDOW ==> admitted <= max - 1 + b.count)
  }

  lemma {:induction false} RunBounded(calls: seq<Call>, key: Str, max: int, from: int)
    requires Clocked(calls) && FixedMax(calls, key, max) && max >= 1
    ensures Bounded(Find(After(calls), key), AdmittedIn(calls, key, from), max, from)
  {
    if calls != [] {
      var n := |calls| - 1;
      RunBounded(calls[..n], key, max, from);
      if key in After(calls[..n]) {
        WindowStarted(calls[..n], key);
        if After(calls[..n])[key].resetAt < from {
          NoneAfterWindow(calls[..n], key, from);
        }
      }
    }
  }

  /** In any closed interval of one window's length a key is admitted at most 2 * max - 1 times. */
  lemma AtMostTwoWindows(calls: seq<Call>, key: Str, max: int, from: int)
    requires Clocked(calls) && FixedMax(calls, key, max) && max >= 1
    ensures AdmittedIn(calls, key, from) <= 2 * max - 1
  {
    RunBounded(calls, key, max, from);
  }

  // ---------- the bound is reached ----------

  function Burst(key: Str, max: int, now: int, n: nat): (calls: seq<Call>)
    ensures |calls| == n && forall i :: 0 <= i < n ==> calls[i] == Call(key, max, now)
  {
    seq(n, _ => Call(key, max, now))
  }

  // One call, then a full window's remainder at its last instant, then a new window at once.
  function WorstRun(key: Str, max: int): seq<Call>
    requires max >= 1
  {
    Burst(key, max, 0, 1) + Burst(key, max, WINDOW, max - 1) + Burst(key, max, WINDOW + 1, max)
  }

  lemma OneMore(calls: seq<Call>, c: Call, from: int)
    ensures (var run, step := calls + [c], Consumed(Find(After(calls), c.key), c.max, c.now);
             && Find(After(run), c.key) == Some(step.0)
             && AdmittedIn(run, c.key, from) == AdmittedIn(calls, c.key, from)
                  + if from <= c.now <= from + WINDOW && step.1.Admitted? then 1 else 0)
  {
  }

  lemma {:induction false} BurstAdmitted(calls: seq<Call>, key: Str, max: int, now: int, n: nat, from: int)
    requires (var b := Find(After(calls), key);
              b.Some? && now <= b.value.resetAt && b.value.count + n <= max)
    requires from <= now <= from + WINDOW
    ensures (var run, b := calls + Burst(key, max, now, n), Find(After(calls), key).value;
             && Find(After(run), key) == Some(b.(count := b.count + n))
             && AdmittedIn(run, key, from) == AdmittedIn(calls, key, from) + n)
  {
    hide After, AdmittedIn;
    var run := calls + Burst(key, max, now, n);
    if n == 0 {
      assert run == calls;
    } else {
      BurstAdmitted(calls, key, max, now, n - 1, from);
      OneMore(calls + Burst(key, max, now, n - 1), Call(key, max, now), from);
      assert run == calls + Burst(key, max, now, n - 1) + [Call(key, max, now)];
    }
  }

  // A burst of up to max calls that opens a window.
  lemma BurstOpens(calls: seq<Call>, key: Str, max: int, now: int, n: nat, from: int)
    requires 1 <= n <= max
    requires Find(After(calls), key).Some? ==> Find(After(calls), key).value.resetAt < now
    ensures (var run := calls + Burst(key, max, now, n);
             && Find(After(run), key) == Some(Bucket(n, now + WINDOW))
             && (from <= now <= from + WINDOW ==> AdmittedIn(run, key, from) == AdmittedIn(calls, key, from) + n))
  {
    hide After, AdmittedIn;
    var c := Call(key, max, now);
    OneMore(calls, c, from);
    OneMore(calls, c, now);
    var f := if from <= now <= from + WINDOW then from else now;
    BurstAdmitted(calls + [c], key, max, now, n - 1, f);
    assert calls + Burst(key, max, now, n) == calls + [c] + Burst(key, max, now, n - 1);
  }

  lemma WorstRunClocked(key: Str, max: int)
    requires max >= 1
    ensures Clocked(WorstRun(key, max)) && FixedMax(WorstRun(key, max), key, max)
  {
    var run := WorstRun(key, max);
    assert forall i :: 0 <= i < |run| ==>
      run[i] == Call(key, max, if i == 0 then 0 else if i < max then WINDOW else WINDOW + 1);
  }

  /** The bound is tight: for every max some run reaches it. */
  lemma BoundReached(key: Str, max: int)
    requires max >= 1
    ensures Clocked(WorstRun(key, max)) && FixedMax(WorstRun(key, max), key, max)
    ensures AdmittedIn(WorstRun(key, max), key, 1) == 2 * max - 1
  {
    hide Clocked, FixedMax;
    WorstRunClocked(key, max);
    var c := Call(key, max, 0);
    OneMore([], c, 1);
    assert [] + [c] == [c] == Burst(key, max, 0, 1);
    BurstAdmitted([c], key, max, WINDOW, max - 1, 1);
    BurstOpens([c] + Burst(key, max, WINDOW, max - 1), key, max, WINDOW + 1, max, 1);
  }

  // ---------- refusals ----------

  // A bucket's count is the number of calls admitted since its window began.
  lemma {:induction false} CountIsAdmissions(calls: seq<Call>, key: Str)
    requires Clocked(calls) && key in After(calls)
    ensures AdmittedIn(calls, key, After(calls)[key].resetAt - WINDOW) == After(calls)[key].count
  {
    var n := |calls| - 1;
    var before, c := calls[..n], calls[n];
    if key in After(before) {
      CountIsAdmissions(before, key);
      WindowStarted(before, key);
    }
    if c.key == key && (key !in After(before) || After(before)[key].resetAt < c.now) {
      NoneAfterWindow(before, key, c.now);
    }
  }

  /** A call is refused exactly when its key's window is still running and has admitted max calls. */
  lemma RefusedExactlyWhenFull(calls: seq<Call>, max: int, i: nat)
    requires i < |calls| && Clocked(calls) && FixedMax(calls, calls[i].key, max) && max >= 1
    ensures (var key, b := calls[i].key, Find(After(calls[..i]), calls[i].key);
             Outcome(calls, i).Refused? <==>
             b.Some? && calls[i].now <= b.value.resetAt
             && AdmittedIn(calls[..i], key, b.value.resetAt - WINDOW) == max)
    ensures Outcome(calls, i).Refused? ==> (
              var until := Outcome(calls, i).resetAt;
              until - WINDOW <= calls[i].now <= until && AdmittedIn(calls[..i], calls[i].key, until - WINDOW) == max)
  {
    var key, before := calls[i].key, calls[..i];
    if key in After(before) {
      CountIsAdmissions(before, key);
      WindowStarted(before, key);
      RunBounded(before, key, max, 0);
    }
  }

  // ---------- keys ----------

  function Only(calls: seq<Call>, key: Str): seq<Call> {
    if calls == [] then []
    else
      var n := |calls| - 1;
      Only(calls[..n], key) + if calls[n].key == key then [calls[n]] else []
  }

  lemma {:induction false} BucketIsolated(calls: seq<Call>, key: Str)
    ensures Find(After(calls), key) == Find(After(Only(calls, key)), key)
  {
    if calls != [] {
      var n := |calls| - 1;
      BucketIsolated(calls[..n], key);
      var mine := Only(calls[..n], key);
      if calls[n].key == key {
        OneMore(mine, calls[n], 0);
      } else {
        assert Only(calls, key) == mine;
      }
    }
  }

  lemma {:induction false} OnlySplits(calls: seq<Call>, key: Str, i: nat)
    requires i <= |calls|
    ensures Only(calls[..i], key) <= Only(calls, key)
  {
    var n := |calls|;
    if i < n {
      OnlySplits(calls[..n - 1], key, i);
      assert calls[..n - 1][..i] == calls[..i];
    } else {
      assert calls[..i] == calls;
    }
  }

  /** A key's outcomes are those of the run with every other key's calls removed. */
  lemma KeysIsolated(calls: seq<Call>, i: nat)
    requires i < |calls|
    ensures (var mine, k := Only(calls, calls[i].key), |Only(calls[..i], calls[i].key)|;
             && k < |mine| && mine[k] == calls[i]
             && Outcome(calls, i) == Outcome(mine, k))
  {
    var key := calls[i].key;
    var before := Only(calls[..i], key);
    assert calls[..i + 1][..i] == calls[..i];
    OnlySplits(calls, key, i + 1);
    assert Only(calls[..i + 1], key) == before + [calls[i]];
    assert Only(calls, key)[..|before|] == before;
    BucketIsolated(calls[..i], key);
    assert Find(After(before), key) == Find(After(calls[..i]), key);
  }

  const PIPE: Unit := 0x7C

  function CompositeKey(scope: Str, tenantId: Option<Str>, ip: Str): Str {
    Ascii("c|") + KeyParts(scope, TenantLabel(tenantId), ip)
  }

  function KeyParts(scope: Str, tenant: Str, ip: Str): Str {
    scope + ([PIPE] + (tenant + ([PIPE] + ip)))
  }

  function TenantLabel(tenantId: Option<Str>): Str {
    match tenantId
    case None => Ascii("-")
    case Some(t) => t
  }

  function GlobalKey(scope: Str): Str {
    Ascii("g|") + scope
  }

  lemma KeyPartsOf(scope: Str, tenantId: Option<Str>, ip: Str)
    ensures (var k := CompositeKey(scope, tenantId, ip);
             k[..2] == Ascii("c|") && k[2..] == KeyParts(scope, TenantLabel(tenantId), ip))
  {
  }

  lemma PartsDistinct(scope: Str, tenant: Str, ip: Str, scope2: Str, tenant2: Str, ip2: Str)
    requires PIPE !in scope && PIPE !in scope2 && PIPE !in tenant && PIPE !in tenant2
    ensures KeyParts(scope, tenant, ip) == KeyParts(scope2, tenant2, ip2) <==>
            scope == scope2 && tenant == tenant2 && ip == ip2
  {
    if KeyParts(scope, tenant, ip) == KeyParts(scope2, tenant2, ip2) {
      CutUnique(scope, tenant + ([PIPE] + ip), scope2, tenant2 + ([PIPE] + ip2), PIPE);
      CutUnique(tenant, ip, tenant2, ip2, PIPE);
    }
  }

  /**
   A composite key names its scope, its tenant up to the "-" that stands for
   none, and its address; and it is never a process-wide key.
   */
  lemma CompositeKeysDistinct(scope: Str, tenantId: Option<Str>, ip: Str,
                              scope2: Str, tenantId2: Option<Str>, ip2: Str)
    requires PIPE !in scope && PIPE !in scope2
    requires PIPE !in TenantLabel(tenantId) && PIPE !in TenantLabel(tenantId2)
    ensures CompositeKey(scope, tenantId, ip) == CompositeKey(scope2, tenantId2, ip2) <==>
            scope == scope2 && TenantLabel(tenantId) == TenantLabel(tenantId2) && ip == ip2
    ensures CompositeKey(scope, tenantId, ip) != GlobalKey(scope2)
  {
    hide KeyParts, TenantLabel;
    KeyPartsOf(scope, tenantId, ip);
    KeyPartsOf(scope2, tenantId2, ip2);
    PartsDistinct(scope, TenantLabel(tenantId), ip, scope2, TenantLabel(tenantId2), ip2);
    assert CompositeKey(scope, tenantId, ip)[0] == 0x63 && GlobalKey(scope2)[0] == 0x67;
  }

  // ---------- keys with bars in them ----------

  function Bars(s: Str): nat {
    if s == [] then 0 else (if s[0] == PIPE then 1 else 0) + Bars(s[1..])
  }

  lemma {:induction false} BarsConcat(a: Str, b: Str)
    ensures Bars(a + b) == Bars(a) + Bars(b)
  {
    if a == [] {
      assert a + b == b;
    } else {
      assert (a + b)[1..] == a[1..] + b;
      BarsConcat(a[1..], b);
    }
  }

  lemma {:induction false} NoBars(s: Str)
    ensures Bars(s) == 0 <==> PIPE !in s
  {
    if s != [] {
      NoBars(s[1..]);
      assert s == [s[0]] + s[1..];
    }
  }

  lemma OneBar()
    ensures Bars([PIPE]) == 1
  {
    assert [PIPE][1..] == [];
  }

  lemma PartsBars(scope: Str, tenant: Str, ip: Str)
    ensures Bars(KeyParts(scope, tenant, ip)) == Bars(scope) + Bars(tenant) + Bars(ip) + 2
  {
    hide Bars;
    OneBar();
    BarsConcat(tenant, [PIPE] + ip);
    BarsConcat([PIPE], ip);
    BarsConcat(scope, [PIPE] + (tenant + ([PIPE] + ip)));
    BarsConcat([PIPE], tenant + ([PIPE] + ip));
  }

  // The text before the first bar and the text after it.
  lemma {:induction false} FirstCut(s: Str) returns (a: Str, b: Str)
    requires PIPE in s
    ensures PIPE !in a && s == a + ([PIPE] + b)
  {
    if s[0] == PIPE {
      a, b := [], s[1..];
    } else {
      assert s == [s[0]] + s[1..];
      var x, y := FirstCut(s[1..]);
      a, b := [s[0]] + x, y;
      assert s == a + ([PIPE] + b);
    }
  }

  // Two bars or more are the parts of some caller's key with bars in its address at most.
  lemma CutInParts(s: Str) returns (scope: Str, tenant: Str, ip: Str)
    requires Bars(s) >= 2
    ensures PIPE !in scope && PIPE !in tenant && s == KeyParts(scope, tenant, ip)
  {
    NoBars(s);
    var rest;
    scope, rest := FirstCut(s);
    NoBars(scope);
    BarsConcat(scope, [PIPE] + rest);
    BarsConcat([PIPE], rest);
    OneBar();
    NoBars(rest);
    tenant, ip := FirstCut(rest);
  }

  // Two callers to the limiter that it does not mean to tell apart.
  predicate SameCaller(scope: Str, tenant: Str, ip: Str, scope2: Str, tenant2: Str, ip2: Str) {
    scope == scope2 && tenant == tenant2 && ip == ip2
  }

  /**
   Among callers without a bar in scope and tenant, as every caller in the
   repository has a plain word for its scope, a key is its caller's own exactly
   when that caller has none either: a bar in the tenant is enough to share one.
   */
  lemma KeyAloneAmongPlain(scope: Str, tenantId: Option<Str>, ip: Str)
    ensures (forall scope2, tenantId2, ip2 ::
               PIPE !in scope2 && PIPE !in TenantLabel(tenantId2)
               && CompositeKey(scope2, tenantId2, ip2) == CompositeKey(scope, tenantId, ip) ==>
               SameCaller(scope, TenantLabel(tenantId), ip, scope2, TenantLabel(tenantId2), ip2))
            <==> PIPE !in scope && PIPE !in TenantLabel(tenantId)
  {
    hide KeyParts, TenantLabel, Bars;
    var tenant := TenantLabel(tenantId);
    if PIPE !in scope && PIPE !in tenant {
      forall scope2, tenantId2, ip2 |
        PIPE !in scope2 && PIPE !in TenantLabel(tenantId2)
        && CompositeKey(scope2, tenantId2, ip2) == CompositeKey(scope, tenantId, ip)
        ensures SameCaller(scope, tenant, ip, scope2, TenantLabel(tenantId2), ip2)
      {
        CompositeKeysDistinct(scope, tenantId, ip, scope2, tenantId2, ip2);
      }
    } else {
      PartsBars(scope, tenant, ip);
      var s, l, i := CutInParts(KeyParts(scope, tenant, ip));
      LabelOf(l);
      assert CompositeKey(s, Some(l), i) == CompositeKey(scope, tenantId, ip);
    }
  }

  lemma LabelOf(tenant: Str)
    ensures TenantLabel(Some(tenant)) == tenant
  {
  }

  /** Among all callers a key is its caller's own exactly when nothing in it holds a bar, the address included. */
  lemma KeyAloneAmongAll(scope: Str, tenantId: Option<Str>, ip: Str)
    ensures (forall scope2, tenantId2, ip2 ::
               CompositeKey(scope2, tenantId2, ip2) == CompositeKey(scope, tenantId, ip) ==>
               SameCaller(scope, TenantLabel(tenantId), ip, scope2, TenantLabel(tenantId2), ip2))
            <==> PIPE !in scope && PIPE !in TenantLabel(tenantId) && PIPE !in ip
  {
    hide KeyParts, TenantLabel, Bars;
    var tenant := TenantLabel(tenantId);
    KeyAloneAmongPlain(scope, tenantId, ip);
    NoBars(scope);
    NoBars(tenant);
    NoBars(ip);
    if PIPE in ip {
      var a, b := FirstCut(ip);
      BarMoved(scope, tenant, a, b);
      LabelOf(a);
      assert CompositeKey(scope + ([PIPE] + tenant), Some(a), b) == CompositeKey(scope, tenantId, ip);
    } else if PIPE !in scope && PIPE !in tenant {
      forall scope2, tenantId2, ip2 | CompositeKey(scope2, tenantId2, ip2) == CompositeKey(scope, tenantId, ip)
        ensures SameCaller(scope, tenant, ip, scope2, TenantLabel(tenantId2), ip2)
      {
        var tenant2 := TenantLabel(tenantId2);
        KeyPartsOf(scope, tenantId, ip);
        KeyPartsOf(scope2, tenantId2, ip2);
        PartsBars(scope, tenant, ip);
        PartsBars(scope2, tenant2, ip2);
        NoBars(scope2);
        NoBars(tenant2);
        PartsDistinct(scope, tenant, ip, scope2, tenant2, ip2);
      }
    }
  }

  lemma BarMoved(scope: Str, tenant: Str, a: Str, b: Str)
    ensures KeyParts(scope + ([PIPE] + tenant), a, b) == KeyParts(scope, tenant, a + ([PIPE] + b))
  {
  }

  /** With a bar in the tenant, or in the scope, another tenant's caller shares the bucket. */
  lemma PipesConfuseKeys(scope: Str, a: Str, b: Str, c: Str, ip: Str)
    ensures CompositeKey(scope, Some(a + ([PIPE] + b)), ip) == CompositeKey(scope, Some(a), b + ([PIPE] + ip))
    ensures CompositeKey(a + ([PIPE] + b), Some(c), ip) == CompositeKey(a, Some(b), c + ([PIPE] + ip))
  {
    BarMoved(a, b, c, ip);
    assert (a + ([PIPE] + b)) + ([PIPE] + ip) == a + ([PIPE] + (b + ([PIPE] + ip)));
  }

  /** An address used as a key by itself can be a composite key: exactly when it is spelled like one. */
  lemma RawAddressMeetsComposite(ip: Str)
    ensures (exists scope, tenantId, ip2 :: CompositeKey(scope, tenantId, ip2) == ip) <==>
            |ip| >= 2 && ip[..2] == Ascii("c|") && Bars(ip[2..]) >= 2
  {
    hide KeyParts, TenantLabel, Bars;
    if |ip| >= 2 && ip[..2] == Ascii("c|") && Bars(ip[2..]) >= 2 {
      var s, l, i := CutInParts(ip[2..]);
      LabelOf(l);
      assert ip == ip[..2] + ip[2..];
      assert CompositeKey(s, Some(l), i) == ip;
    }
    if scope, tenantId, ip2 :| CompositeKey(scope, tenantId, ip2) == ip {
      KeyPartsOf(scope, tenantId, ip2);
      PartsBars(scope, TenantLabel(tenantId), ip2);
    }
  }
}
